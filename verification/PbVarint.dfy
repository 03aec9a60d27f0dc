// The integer formats of the Protocol Buffers wire format, as nanopb reads and
// writes them: base 128 varints, zigzag and little-endian fixed widths.
module PbVarint {
  import opened Wire


  // ---- Shifts and bitwise or on unsigned integers ----

  function Scaled(x: nat, k: nat): nat {
    x * Pow2(k)
  }

  function Reduced(n: nat, width: nat): nat {
    n % Pow2(width)
  }

  // x << k in an unsigned type of the given width
  function Shl(x: nat, k: nat, width: nat): nat {
    Reduced(Scaled(x, k), width)
  }

  function Or(a: nat, b: nat): nat
    decreases a
  {
    if a == 0 then b else 2 * Or(a / 2, b / 2) + (if a % 2 == 1 || b % 2 == 1 then 1 else 0)
  }

  lemma {:induction false} OrIsSum(a: nat, c: nat, k: nat)
    requires a < Pow2(k)
    ensures Or(a, Scaled(c, k)) == a + Scaled(c, k)
    decreases k
  {
    if a != 0 {
      assert Scaled(c, k) == 2 * Scaled(c, k - 1);
      OrIsSum(a / 2, c, k - 1);
    }
  }

  lemma {:induction false} Pow2Add(j: nat, k: nat)
    ensures Pow2(j + k) == Pow2(j) * Pow2(k)
    decreases j
  {
    if j != 0 {
      Pow2Add(j - 1, k);
    }
  }

  lemma Pow2Seven(k: nat)
    ensures Pow2(k + 7) == 128 * Pow2(k)
  {
    assert Pow2(k + 1) == 2 * Pow2(k);
    assert Pow2(k + 2) == 4 * Pow2(k);
    assert Pow2(k + 3) == 8 * Pow2(k);
    assert Pow2(k + 4) == 16 * Pow2(k);
    assert Pow2(k + 5) == 32 * Pow2(k);
    assert Pow2(k + 6) == 64 * Pow2(k);
  }

  // The powers a varint decoder meets.
  lemma Pow2Values()
    ensures Pow2(0) == 1 && Pow2(7) == 0x80 && Pow2(14) == 0x4000 && Pow2(21) == 0x20_0000 && Pow2(28) == 0x1000_0000
    ensures Pow2(35) == 0x8_0000_0000 && Pow2(42) == 0x400_0000_0000 && Pow2(49) == 0x2_0000_0000_0000
    ensures Pow2(56) == 0x100_0000_0000_0000 && Pow2(63) == 0x8000_0000_0000_0000 && Pow2(70) == 0x40_0000_0000_0000_0000
    ensures Pow2(32) == TWO_32 && Pow2(64) == TWO_64
  {
    Pow2Seven(0);
    Pow2Seven(7);
    Pow2Seven(14);
    Pow2Seven(21);
    Pow2Seven(28);
    Pow2Seven(35);
    Pow2Seven(42);
    Pow2Seven(49);
    Pow2Seven(56);
    Pow2Seven(63);
    assert Pow2(30) == 4 * Pow2(28);
    assert Pow2(32) == 4 * Pow2(30);
  }

  ghost predicate BitPosition(k: nat) {
    k % 7 == 0 && k <= 63
  }

  // Seven more bits at position k, above all the bits so far.
  lemma OrSevenBits(acc: nat, x: nat, k: nat, width: nat)
    requires acc < Pow2(k) && x < 128 && Scaled(x, k) < Pow2(width)
    ensures Or(acc, Shl(x, k, width)) == acc + Scaled(x, k) < Pow2(k + 7)
  {
    OrIsSum(acc, x, k);
    Pow2Seven(k);
    TimesBelow(acc, x, Pow2(k));
    SmallMod(Scaled(x, k), Pow2(width));
    hide Or, Scaled;
  }

  lemma TimesBelow(acc: nat, x: nat, p: nat)
    requires acc < p && x < 128
    ensures acc + x * p < 128 * p
  {
    assert x * p <= 127 * p;
  }

  lemma SmallMod(n: nat, m: nat)
    requires n < m
    ensures n % m == n
  {
  }

  // ---- Varints ----

  // The low seven bits, with the flag that says more follow.
  function MoreBits(value: nat): byte {
    value % 128 + 128
  }

  // pb_encode_varint
  function EncodeVarint(value: nat): (s: seq<byte>)
    ensures |s| >= 1
  {
    if value < 128 then [value] else [MoreBits(value)] + EncodeVarint(value / 128)
  }

  // result |= (byte & 0x7F) << bitpos
  function AddBits(acc: nat, b: byte, bitpos: nat, width: nat): nat {
    Or(acc, Shl(b % 128, bitpos, width))
  }

  // pb_decode_varint, from bit position bitpos on
  function DecodeVarintFrom(s: seq<byte>, bitpos: nat, acc: nat): (r: Option<(nat, seq<byte>)>)
    ensures r.Some? ==> |r.value.1| < |s| && r.value.1 == s[|s| - |r.value.1|..]
    decreases |s|
  {
    if bitpos >= 64 || s == [] then None
    else
      var acc' := AddBits(acc, s[0], bitpos, 64);
      if s[0] >= 128 then DecodeVarintFrom(s[1..], bitpos + 7, acc') else Some((acc', s[1..]))
  }

  lemma {:induction false} OrBelow(a: nat, b: nat, k: nat)
    requires a < Pow2(k) && b < Pow2(k)
    ensures Or(a, b) < Pow2(k)
    decreases k
  {
    if a != 0 { OrBelow(a / 2, b / 2, k - 1); }
  }

  lemma {:induction false} DecodedFits(s: seq<byte>, bitpos: nat, acc: nat)
    requires acc < Pow2(64) && DecodeVarintFrom(s, bitpos, acc).Some?
    ensures DecodeVarintFrom(s, bitpos, acc).value.0 < Pow2(64)
    decreases |s|
  {
    OrBelow(acc, Shl(s[0] % 128, bitpos, 64), 64);
    hide Pow2, Or, Shl;
    if s[0] >= 128 { DecodedFits(s[1..], bitpos + 7, AddBits(acc, s[0], bitpos, 64)); }
  }

  // What is decoded fits 64 bits.
  function DecodeVarint(s: seq<byte>): (r: Option<(nat, seq<byte>)>)
    ensures r.Some? ==> r.value.0 < TWO_64
  {
    Pow2Values();
    var r := DecodeVarintFrom(s, 0, 0);
    assert r.Some? ==> r.value.0 < TWO_64 by { if r.Some? { DecodedFits(s, 0, 0); } }
    r
  }

  datatype Varint32 = Eof | Failed | Done(value: nat, rest: seq<byte>)

  // Past 32 bits only zeros may follow, or the sign of a negative number.
  predicate Overflows(result: nat, b: byte, bitpos: nat) {
    bitpos >= 32 && b % 128 != 0 && (result < TWO_32 / 2 || b != if bitpos < 63 then 0xFF else 0x01)
  }

  function AddBits32(result: nat, b: byte, bitpos: nat): nat {
    if bitpos >= 32 then result else AddBits(result, b, bitpos, 32)
  }

  // The loop of pb_decode_varint32_eof.  bitpos is an 8-bit integer.
  function DecodeVarint32From(s: seq<byte>, bitpos: nat, result: nat): (r: Varint32)
    ensures r.Done? ==> |r.rest| < |s| && r.rest == s[|s| - |r.rest|..]
    ensures !r.Eof?
    decreases |s|
  {
    if s == [] then Failed
    else if Overflows(result, s[0], bitpos) then Failed
    else
      var result' := AddBits32(result, s[0], bitpos);
      var bitpos' := (bitpos + 7) % 256;
      if s[0] >= 128 then DecodeVarint32From(s[1..], bitpos', result')
      else if bitpos' == 35 && s[0] / 16 % 8 != 0 then Failed
      else Done(result', s[1..])
  }

  // pb_decode_varint32_eof
  function DecodeVarint32(s: seq<byte>): (r: Varint32)
    ensures r.Done? ==> |r.rest| < |s| && r.rest == s[|s| - |r.rest|..]
    ensures r.Eof? <==> s == []
  {
    if s == [] then Eof
    else if s[0] < 128 then Done(s[0], s[1..])
    else DecodeVarint32From(s[1..], 7, s[0] % 128)
  }

  // ---- Decoding undoes encoding ----

  // What is left of the value still fits above bit k.
  ghost predicate FitsAbove(value: nat, k: nat) {
    BitPosition(k) && Scaled(value, k) < Pow2(64)
  }

  lemma LowPart(value: nat, k: nat)
    requires FitsAbove(value, k)
    ensures k <= 63 && Scaled(value % 128, k) < Pow2(64)
    ensures value >= 128 ==> FitsAbove(value / 128, k + 7)
    ensures Scaled(value % 128, k) + Scaled(value / 128, k + 7) == Scaled(value, k)
    ensures value < 128 ==> Scaled(value / 128, k + 7) == 0
  {
    Pow2Seven(k);
    Pow2Values();
    hide Pow2;
    assert k in {0, 7, 14, 21, 28, 35, 42, 49, 56, 63};
  }

  lemma AddLowBits(value: nat, b: byte, bitpos: nat, acc: nat)
    requires FitsAbove(value, bitpos) && acc < Pow2(bitpos) && b % 128 == value % 128
    ensures AddBits(acc, b, bitpos, 64) == acc + Scaled(value % 128, bitpos) < Pow2(bitpos + 7)
  {
    LowPart(value, bitpos);
    OrSevenBits(acc, value % 128, bitpos, 64);
  }

  lemma EncodedHead(value: nat, rest: seq<byte>)
    ensures var s := EncodeVarint(value) + rest;
      && s != [] && s[0] % 128 == value % 128 && (s[0] >= 128 <==> value >= 128)
      && s[1..] == if value < 128 then rest else EncodeVarint(value / 128) + rest
  {
    if value < 128 {
      assert EncodeVarint(value) == [value];
    } else {
      assert EncodeVarint(value) == [MoreBits(value)] + EncodeVarint(value / 128);
    }
    hide EncodeVarint;
  }

  lemma {:induction false} DecodeEncoded(value: nat, bitpos: nat, acc: nat, rest: seq<byte>)
    requires FitsAbove(value, bitpos) && acc < Pow2(bitpos)
    ensures DecodeVarintFrom(EncodeVarint(value) + rest, bitpos, acc) == Some((acc + Scaled(value, bitpos), rest))
    decreases value
  {
    hide *;
    var s := EncodeVarint(value) + rest;
    EncodedHead(value, rest);
    LowPart(value, bitpos);
    AddLowBits(value, s[0], bitpos, acc);
    UnfoldDecode(s, bitpos, acc);
    if value >= 128 {
      DecodeEncoded(value / 128, bitpos + 7, acc + Scaled(value % 128, bitpos), rest);
    }
  }

  lemma VarintRoundTrip(value: nat, rest: seq<byte>)
    requires value < TWO_64
    ensures DecodeVarint(EncodeVarint(value) + rest) == Some((value, rest))
  {
    Pow2Values();
    DecodeEncoded(value, 0, 0, rest);
  }

  lemma {:induction false} VarintLength(value: nat, k: nat)
    requires k <= 10 && value < Pow2(7 * k)
    ensures |EncodeVarint(value)| <= if k == 0 then 1 else k
    decreases k
  {
    if value >= 128 {
      Pow2Seven(7 * (k - 1));
      VarintLength(value / 128, k - 1);
    }
  }

  // At most ten bytes.
  lemma VarintAtMostTenBytes(value: nat)
    requires value < TWO_64
    ensures |EncodeVarint(value)| <= 10
  {
    Pow2Values();
    VarintLength(value, 10);
  }

  // ---- The 32-bit decoder ----

  // Both decoders after the same bytes: the 32-bit one has kept the low 32 bits.
  ghost predicate InStep(k: nat, wide: nat, narrow: nat) {
    && k % 7 == 0 && 7 <= k <= 70
    && wide < Pow2(if k <= 63 then k else 64)
    && narrow == wide % TWO_32
  }

  // One more byte keeps them in step.
  lemma StepInStep(k: nat, wide: nat, narrow: nat, b: byte)
    requires InStep(k, wide, narrow) && k <= 63
    ensures InStep(k + 7, AddBits(wide, b, k, 64), AddBits32(narrow, b, k))
  {
    var x := b % 128;
    assert k in {7, 14, 21, 28, 35, 42, 49, 56, 63};
    if k <= 21 {
      LowStep(k, wide, narrow, x);
    } else if k == 28 {
      MiddleStep(wide, narrow, x);
    } else if k <= 56 {
      HighStep(k, wide, x);
    } else {
      LastStep(wide, x);
    }
  }

  lemma LowStep(k: nat, wide: nat, narrow: nat, x: nat)
    requires InStep(k, wide, narrow) && k in {7, 14, 21} && x < 128
    ensures InStep(k + 7, Or(wide, Shl(x, k, 64)), Or(narrow, Shl(x, k, 32)))
  {
    Pow2Values();
    hide Pow2, Or, Shl, Reduced;
    SmallMod(wide, TWO_32);
    OrSevenBits(wide, x, k, 64);
    OrSevenBits(narrow, x, k, 32);
    hide Scaled;
    SmallMod(wide + Scaled(x, k), TWO_32);
  }

  lemma MiddleStep(wide: nat, narrow: nat, x: nat)
    requires InStep(28, wide, narrow) && x < 128
    ensures InStep(35, Or(wide, Shl(x, 28, 64)), Or(narrow, Shl(x, 28, 32)))
  {
    Pow2Values();
    hide Pow2, Or, Shl, Reduced;
    SmallMod(wide, TWO_32);
    FourBitsLeft(x);
    OrIsSum(narrow, x % 16, 28);
    OrSevenBits(wide, x, 28, 64);
    LowFourBits(wide, x);
  }

  // Of seven bits at position 28, four are left in 32 bits.
  lemma FourBitsLeft(x: nat)
    ensures Shl(x, 28, 32) == Scaled(x % 16, 28)
  {
    Pow2Values();
    hide Pow2;
    assert x * 0x1000_0000 == x / 16 * TWO_32 + x % 16 * 0x1000_0000;
  }

  lemma LowFourBits(wide: nat, x: nat)
    requires wide < 0x1000_0000
    ensures (wide + x * 0x1000_0000) % TWO_32 == wide + x % 16 * 0x1000_0000
  {
    assert x * 0x1000_0000 == x / 16 * TWO_32 + x % 16 * 0x1000_0000;
  }

  lemma HighStep(k: nat, wide: nat, x: nat)
    requires InStep(k, wide, wide % TWO_32) && k in {35, 42, 49, 56} && x < 128
    ensures InStep(k + 7, Or(wide, Shl(x, k, 64)), wide % TWO_32)
  {
    Pow2Values();
    hide Pow2, Or, Shl, Reduced;
    OrSevenBits(wide, x, k, 64);
    var high := x * (Pow2(k) / TWO_32);
    assert Scaled(x, k) == high * TWO_32;
    hide Scaled;
    AddMultiple(wide, high);
  }

  lemma AddMultiple(n: nat, c: nat)
    ensures (n + c * TWO_32) % TWO_32 == n % TWO_32
  {
  }

  lemma LastStep(wide: nat, x: nat)
    requires InStep(63, wide, wide % TWO_32) && x < 128
    ensures InStep(70, Or(wide, Shl(x, 63, 64)), wide % TWO_32)
  {
    Pow2Values();
    hide Pow2, Or;
    assert Shl(x, 63, 64) == Scaled(x % 2, 63) == (x % 2 * 0x8000_0000) * TWO_32;
    OrIsSum(wide, x % 2, 63);
    hide Shl, Scaled, Reduced;
    AddMultiple(wide, x % 2 * 0x8000_0000);
  }

  // Where both decoders accept, they take the same bytes, and the 32-bit one
  // returns the value modulo 2^32.
  lemma UnfoldDecode(s: seq<byte>, k: nat, acc: nat)
    requires s != [] && k <= 63
    ensures DecodeVarintFrom(s, k, acc) ==
      if s[0] >= 128 then DecodeVarintFrom(s[1..], k + 7, AddBits(acc, s[0], k, 64)) else Some((AddBits(acc, s[0], k, 64), s[1..]))
  {
    hide AddBits;
  }

  lemma UnfoldDecode32(s: seq<byte>, k: nat, acc: nat)
    requires s != [] && k <= 63 && DecodeVarint32From(s, k, acc).Done?
    ensures DecodeVarint32From(s, k, acc) ==
      if s[0] >= 128 then DecodeVarint32From(s[1..], k + 7, AddBits32(acc, s[0], k)) else Done(AddBits32(acc, s[0], k), s[1..])
  {
    hide AddBits32, Overflows;
  }

  lemma {:induction false} DecodersStayInStep(s: seq<byte>, k: nat, wide: nat, narrow: nat)
    requires InStep(k, wide, narrow)
    requires DecodeVarintFrom(s, k, wide).Some? && DecodeVarint32From(s, k, narrow).Done?
    ensures DecodeVarint32From(s, k, narrow) == Done(DecodeVarintFrom(s, k, wide).value.0 % TWO_32, DecodeVarintFrom(s, k, wide).value.1)
    decreases |s|
  {
    assert k <= 63 && s != [];
    hide *;
    UnfoldDecode(s, k, wide);
    UnfoldDecode32(s, k, narrow);
    StepInStep(k, wide, narrow, s[0]);
    var wide', narrow' := AddBits(wide, s[0], k, 64), AddBits32(narrow, s[0], k);
    LowBitsOf(k + 7, wide', narrow');
    if s[0] >= 128 {
      DecodersStayInStep(s[1..], k + 7, wide', narrow');
    }
  }

  lemma LowBitsOf(k: nat, wide: nat, narrow: nat)
    requires InStep(k, wide, narrow)
    ensures narrow == wide % TWO_32
  {
  }

  lemma FirstSevenBits(b: byte)
    ensures AddBits(0, b, 0, 64) == b % 128 && InStep(7, b % 128, b % 128)
  {
    Pow2Values();
    SmallMod(b % 128, TWO_64);
  }

  lemma VarintFormsAgree(s: seq<byte>)
    requires DecodeVarint(s).Some? && DecodeVarint32(s).Done?
    ensures DecodeVarint32(s) == Done(DecodeVarint(s).value.0 % TWO_32, DecodeVarint(s).value.1)
  {
    FirstSevenBits(s[0]);
    hide AddBits, InStep, DecodeVarint32From;
    if s[0] >= 128 {
      DecodersStayInStep(s[1..], 7, s[0] % 128, s[0] % 128);
    }
  }

  // ---- Which encodings the 32-bit decoder accepts ----

  // The groups of seven bits from position 35 on that it lets pass once bit 31
  // is set: all zeros or all ones, and only as far as bit 63.
  predicate SignGroups(q: nat, k: nat)
    decreases q
  {
    if k >= 63 then q <= 1
    else q == 0 || (q >= 128 && (q % 128 == 0 || q % 128 == 127) && SignGroups(q / 128, k + 7))
  }

  function Outcome32(value: nat, rest: seq<byte>): Varint32 {
    if value < TWO_32 then Done(value, rest)
    else if value % TWO_32 >= TWO_32 / 2 && value >= 0x8_0000_0000 && SignGroups(value / 0x8_0000_0000, 35)
    then Done(value % TWO_32, rest)
    else Failed
  }

  lemma {:induction false} TailAccepted(q: nat, k: nat, r: nat, rest: seq<byte>)
    requires k in {35, 42, 49, 56, 63} && 1 <= q && Scaled(q, k) < TWO_64
    ensures DecodeVarint32From(EncodeVarint(q) + rest, k, r)
         == if r >= TWO_32 / 2 && SignGroups(q, k) then Done(r, rest) else Failed
    decreases q
  {
    EncodedHead(q, rest);
    TailFits(q, k);
    var s := EncodeVarint(q) + rest;
    assert SignGroups(q, k) <==> if k >= 63 then q <= 1 else q >= 128 && (q % 128 == 0 || q % 128 == 127) && SignGroups(q / 128, k + 7);
    assert AddBits32(r, s[0], k) == r;
    assert Overflows(r, s[0], k) <==> q % 128 != 0 && (r < TWO_32 / 2 || s[0] != if k < 63 then 0xFF else 0x01);
    UnfoldAny32(s, k, r);
    hide *;
    if q >= 128 {
      TailAccepted(q / 128, k + 7, r, rest);
    }
  }

  lemma TailFits(q: nat, k: nat)
    requires k in {35, 42, 49, 56, 63} && Scaled(q, k) < TWO_64
    ensures q >= 128 ==> k < 63 && Scaled(q / 128, k + 7) < TWO_64
    ensures k == 63 ==> q <= 1
  {
    Pow2Values();
    hide Pow2;
  }

  lemma UnfoldAny32(s: seq<byte>, k: nat, acc: nat)
    requires s != [] && k <= 63
    ensures DecodeVarint32From(s, k, acc) ==
      if Overflows(acc, s[0], k) then Failed
      else if s[0] >= 128 then DecodeVarint32From(s[1..], k + 7, AddBits32(acc, s[0], k))
      else if k == 28 && s[0] / 16 % 8 != 0 then Failed
      else Done(AddBits32(acc, s[0], k), s[1..])
  {
    hide AddBits32, Overflows;
  }

  // The outcome, in terms of the low 28 bits and what is above them.
  lemma OutcomeAbove28(q: nat, r: nat, rest: seq<byte>)
    requires r < 0x1000_0000 && r + q * 0x1000_0000 < TWO_64
    ensures var low := r + q % 16 * 0x1000_0000;
      Outcome32(r + q * 0x1000_0000, rest)
      == if q < 16 then Done(low, rest)
         else if q >= 128 && low >= TWO_32 / 2 && SignGroups(q / 128, 35) then Done(low, rest)
         else Failed
    ensures Scaled(q / 128, 35) < TWO_64
  {
    Pow2Values();
    hide Pow2, SignGroups;
    var value := r + q * 0x1000_0000;
    assert value / 0x8_0000_0000 == q / 128;
    assert value % TWO_32 == r + q % 16 * 0x1000_0000;
  }

  lemma FifthBitsOf(b: byte, q: nat)
    requires b % 128 == q % 128
    ensures b % 16 == q % 16 && (q < 128 ==> (b / 16 % 8 == 0 <==> q < 16))
  {
    Mod16(q);
    Mod16(b);
  }

  lemma Mod16(q: nat)
    ensures q % 16 == q % 128 % 16 && q / 16 % 8 == q % 128 / 16
  {
    var h, m := q / 128, q % 128;
    assert q == 16 * (8 * h + m / 16) + m % 16;
    assert q / 16 == 8 * h + m / 16;
  }

  lemma NoOverflowYet(result: nat, b: byte, bitpos: nat)
    requires bitpos < 32
    ensures !Overflows(result, b, bitpos)
  {
  }

  // The fifth byte: of its seven bits only four fit.
  lemma FifthByte(q: nat, r: nat, rest: seq<byte>)
    requires 1 <= q && r < 0x1000_0000 && r + q * 0x1000_0000 < TWO_64
    ensures DecodeVarint32From(EncodeVarint(q) + rest, 28, r) == Outcome32(r + q * 0x1000_0000, rest)
  {
    hide *;
    var s := EncodeVarint(q) + rest;
    EncodedHead(q, rest);
    NoOverflowYet(r, s[0], 28);
    FifthBits(r, s[0]);
    FifthBitsOf(s[0], q);
    UnfoldAny32(s, 28, r);
    OutcomeAbove28(q, r, rest);
    if q >= 128 {
      TailAccepted(q / 128, 35, r + q % 16 * 0x1000_0000, rest);
    }
  }

  lemma FifthBits(r: nat, b: byte)
    requires r < 0x1000_0000
    ensures AddBits32(r, b, 28) == r + b % 16 * 0x1000_0000
  {
    Pow2Values();
    hide Pow2, Or;
    assert Shl(b % 128, 28, 32) == b % 128 * 0x1000_0000 % TWO_32 == b % 16 * 0x1000_0000 == Scaled(b % 16, 28);
    OrIsSum(r, b % 16, 28);
  }

  // The bytes before it.
  lemma {:induction false} EarlierBytes(q: nat, k: nat, r: nat, rest: seq<byte>)
    requires k in {7, 14, 21, 28} && 1 <= q && r < Pow2(k) && r + Scaled(q, k) < TWO_64
    ensures DecodeVarint32From(EncodeVarint(q) + rest, k, r) == Outcome32(r + Scaled(q, k), rest)
    decreases q
  {
    if k == 28 {
      hide *;
      ScaledAt28(q, r);
      FifthByte(q, r, rest);
    } else {
      hide *;
      var s := EncodeVarint(q) + rest;
      EncodedHead(q, rest);
      NoOverflowYet(r, s[0], k);
      EarlierFits(q, k, r);
      LowPart(q, k);
      EarlierBits(r, s[0], k);
      UnfoldAny32(s, k, r);
      if q >= 128 {
        EarlierBytes(q / 128, k + 7, r + Scaled(q % 128, k), rest);
      } else {
        SmallOutcome(r + Scaled(q, k), rest);
      }
    }
  }

  lemma ScaledAt28(q: nat, r: nat)
    ensures Pow2(28) == 0x1000_0000 && Scaled(q, 28) == q * 0x1000_0000
  {
    Pow2Values();
  }

  lemma EarlierFits(q: nat, k: nat, r: nat)
    requires k in {7, 14, 21} && r < Pow2(k) && r + Scaled(q, k) < TWO_64
    ensures FitsAbove(q, k) && (q < 128 ==> q % 128 == q && r + Scaled(q, k) < TWO_32)
  {
    Pow2Values();
    hide Pow2;
  }

  lemma SmallOutcome(value: nat, rest: seq<byte>)
    requires value < TWO_32
    ensures Outcome32(value, rest) == Done(value, rest)
  {
  }

  lemma EarlierBits(r: nat, b: byte, k: nat)
    requires k in {7, 14, 21} && r < Pow2(k)
    ensures AddBits32(r, b, k) == r + Scaled(b % 128, k) < Pow2(k + 7)
  {
    Pow2Values();
    hide Pow2;
    OrSevenBits(r, b % 128, k, 32);
  }

  // Exactly which encoded values the 32-bit decoder accepts, and as what.
  lemma Varint32Outcome(value: nat, rest: seq<byte>)
    requires value < TWO_64
    ensures DecodeVarint32(EncodeVarint(value) + rest) == Outcome32(value, rest)
  {
    EncodedHead(value, rest);
    if value >= 128 {
      assert Pow2(7) == 128 by { Pow2Values(); }
      assert Scaled(value / 128, 7) == value / 128 * 128;
      hide Scaled, Pow2, DecodeVarint32From, EncodeVarint, Outcome32;
      EarlierBytes(value / 128, 7, value % 128, rest);
    }
  }

  // Every negative 32-bit value, sign-extended to 64 bits, is accepted.
  lemma NegativesAccepted(m: nat, rest: seq<byte>)
    requires 1 <= m <= TWO_32 / 2
    ensures DecodeVarint32(EncodeVarint(TWO_64 - m) + rest) == Done(TWO_32 - m, rest)
  {
    Varint32Outcome(TWO_64 - m, rest);
    AllOnesAreSignGroups();
    NegativeParts(m);
    hide SignGroups, DecodeVarint32, EncodeVarint;
  }

  lemma NegativeParts(m: nat)
    requires 1 <= m <= TWO_32 / 2
    ensures (TWO_64 - m) / 0x8_0000_0000 == 0x1FFF_FFFF && (TWO_64 - m) % TWO_32 == TWO_32 - m
  {
  }

  lemma AllOnesAreSignGroups()
    ensures SignGroups(0x1FFF_FFFF, 35)
  {
    assert SignGroups(1, 63);
    assert SignGroups(0xFF, 56);
    assert SignGroups(0x7FFF, 49);
    assert SignGroups(0x3F_FFFF, 42);
  }

  // But so are values that are no sign-extended 32-bit value at all, which the
  // decoder silently cuts down.
  lemma MoreAccepted(rest: seq<byte>)
    ensures DecodeVarint32(EncodeVarint(0xFFFF_FC00_8000_0000) + rest) == Done(0x8000_0000, rest)
  {
    Varint32Outcome(0xFFFF_FC00_8000_0000, rest);
    assert 0xFFFF_FC00_8000_0000 / 0x8_0000_0000 == 0x1FFF_FF80;
    assert SignGroups(1, 63);
    assert SignGroups(0xFF, 56);
    assert SignGroups(0x7FFF, 49);
    assert SignGroups(0x3F_FFFF, 42);
    assert SignGroups(0x1FFF_FF80, 35);
  }

  // ---- Zigzag and fixed widths ----

  // pb_encode_svarint: the shift and the complement are 64-bit unsigned.
  function ZigZag(value: int): nat
    requires -(TWO_64 / 2) <= value < TWO_64 / 2
  {
    if value < 0 then TWO_64 - 1 - (TWO_64 + value) * 2 % TWO_64 else value * 2
  }

  // pb_decode_svarint
  function UnZigZag(value: nat): int
    requires value < TWO_64
  {
    if value % 2 == 1 then TWO_64 - 1 - value / 2 - TWO_64 else value / 2
  }

  lemma ZigZagIsABijection(value: int, code: nat)
    requires -(TWO_64 / 2) <= value < TWO_64 / 2 && code < TWO_64
    ensures ZigZag(value) == if value < 0 then -2 * value - 1 else 2 * value
    ensures ZigZag(value) < TWO_64 && UnZigZag(ZigZag(value)) == value
    ensures -(TWO_64 / 2) <= UnZigZag(code) < TWO_64 / 2 && ZigZag(UnZigZag(code)) == code
  {
  }

  // width bytes, the lowest first
  function EncodeFixed(value: nat, width: nat): (s: seq<byte>)
    ensures |s| == width
  {
    if width == 0 then [] else [value % 256] + EncodeFixed(value / 256, width - 1)
  }

  function DecodeFixed(s: seq<byte>): nat {
    if s == [] then 0 else s[0] + 256 * DecodeFixed(s[1..])
  }

  function Pow256(width: nat): nat {
    if width == 0 then 1 else 256 * Pow256(width - 1)
  }

  lemma {:induction false} FixedRoundTrip(value: nat, width: nat)
    requires value < Pow256(width)
    ensures DecodeFixed(EncodeFixed(value, width)) == value
  {
    if width != 0 {
      FixedRoundTrip(value / 256, width - 1);
      assert EncodeFixed(value, width)[1..] == EncodeFixed(value / 256, width - 1);
    }
  }
}

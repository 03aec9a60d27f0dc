// Nonces, additional data and record layout around an AEAD (SSLAEADContext).
// The AEAD itself is a parameter.
module AeadContext {
  import opened Wire

  const SSL3_VERSION := 0x0300
  const TLS1_VERSION := 0x0301
  const TLS1_1_VERSION := 0x0302
  const TLS1_2_VERSION := 0x0303
  const TLS1_3_VERSION := 0x0304
  const TLS1_3_DRAFT23_VERSION := 0x7f17
  const DTLS1_VERSION := 0xfeff
  const DTLS1_2_VERSION := 0xfefd

  const MAX_NONCE_LENGTH := 16
  const MAX_KEY_LENGTH := 80
  const FIXED_NONCE_LENGTH := 12  // sizeof(fixed_nonce_)

  // ---- Exclusive or of bytes ----

  function XorBits(a: nat, b: nat, width: nat): nat {
    if width == 0 then 0 else 2 * XorBits(a / 2, b / 2, width - 1) + if a % 2 != b % 2 then 1 else 0
  }

  function XorByte(a: byte, b: byte): byte {
    XorBound(a, b, 8);
    XorBits(a, b, 8)
  }

  lemma {:induction false} XorBound(a: nat, b: nat, width: nat)
    ensures XorBits(a, b, width) < Pow2(width) && Pow2(8) == 256
    decreases width
  {
    assert Pow2(4) == 16;
    if width != 0 {
      XorBound(a / 2, b / 2, width - 1);
    }
  }

  function Bit(n: nat, k: nat): nat {
    if k == 0 then n % 2 else Bit(n / 2, k - 1)
  }

  // Bit by bit
  lemma {:induction false} XorBitsAt(a: nat, b: nat, width: nat, k: nat)
    requires k < width
    ensures Bit(XorBits(a, b, width), k) == if Bit(a, k) != Bit(b, k) then 1 else 0
    decreases width
  {
    if k > 0 {
      XorBitsAt(a / 2, b / 2, width - 1, k - 1);
    }
  }

  lemma {:induction false} XorBitsIsInjective(a: nat, b: nat, c: nat, width: nat)
    requires a < Pow2(width) && b < Pow2(width) && XorBits(a, c, width) == XorBits(b, c, width)
    ensures a == b
    decreases width
  {
    if width != 0 {
      XorBitsIsInjective(a / 2, b / 2, c / 2, width - 1);
    }
  }

  function Xor(a: seq<byte>, b: seq<byte>): (s: seq<byte>)
    requires |a| == |b|
    ensures |s| == |a|
  {
    seq(|a|, i requires 0 <= i < |a| => XorByte(a[i], b[i]))
  }

  lemma XorIsInjective(a: seq<byte>, b: seq<byte>, c: seq<byte>)
    requires |a| == |b| == |c| && Xor(a, c) == Xor(b, c)
    ensures a == b
  {
    forall i | 0 <= i < |a|
      ensures a[i] == b[i]
    {
      assert Xor(a, c)[i] == XorByte(a[i], c[i]) && Xor(b, c)[i] == XorByte(b[i], c[i]);
      XorBound(a[i], c[i], 8);
      XorBitsIsInjective(a[i], b[i], c[i], 8);
    }
  }

  // ---- Which construction a cipher suite uses ----

  datatype Enc = NullEnc | TripleDes | Aes128 | Aes256 | Aes128Gcm | Aes256Gcm | ChaCha20Poly1305
  datatype Mac = AeadMac | Sha1 | Sha256 | Sha384
  datatype Suite = Suite(enc: Enc, mac: Mac)

  // ssl_protocol_version_from_wire
  function ProtocolVersion(wire: nat): Option<nat> {
    if wire in {SSL3_VERSION, TLS1_VERSION, TLS1_1_VERSION, TLS1_2_VERSION} then Some(wire)
    else if wire == TLS1_3_DRAFT23_VERSION then Some(TLS1_3_VERSION)
    else if wire == DTLS1_VERSION then Some(TLS1_1_VERSION)
    else if wire == DTLS1_2_VERSION then Some(TLS1_2_VERSION)
    else None
  }

  // The nonce length of the AEAD, and the key sizes the handshake provides.
  datatype Sizes = Sizes(nonce: nat, mac: nat, fixedIv: nat)

  // ssl_cipher_get_evp_aead
  function AeadSizes(s: Suite, version: nat): Option<Sizes> {
    var block := if s.enc == TripleDes then 8 else 16;
    match s.mac
    case AeadMac =>
      if s.enc !in {Aes128Gcm, Aes256Gcm, ChaCha20Poly1305} then None
      else Some(Sizes(12, 0, if version >= TLS1_3_VERSION || s.enc == ChaCha20Poly1305 then 12 else 4))
    case Sha1 =>
      if s.enc == NullEnc then Some(Sizes(0, 20, 0))
      else if s.enc !in {TripleDes, Aes128, Aes256} then None
      // Before TLS 1.1 the IV is implicit.
      else if version == SSL3_VERSION || version == TLS1_VERSION then Some(Sizes(0, 20, block))
      else Some(Sizes(block, 20, 0))
    case Sha256 => if s.enc in {Aes128, Aes256} then Some(Sizes(16, 32, 0)) else None
    case Sha384 => if s.enc == Aes256 then Some(Sizes(16, 48, 0)) else None
  }

  // No suite is the null cipher.
  datatype Context = Context(suite: Option<Suite>, key: seq<byte>, fixedNonce: seq<byte>, variableLen: nat,
                             included: bool, random: bool, omitLength: bool, omitVersion: bool, omitAd: bool, xorNonce: bool)

  const NULL_CIPHER: Context := Context(None, [], [], 0, false, false, false, false, false, false)

  // SSLAEADContext::Create.  keyOk is whether the AEAD accepts the key.
  method Create(suite: Suite, wireVersion: nat, encKey: seq<byte>, macKey: seq<byte>, fixedIv: seq<byte>, keyOk: bool)
    returns (r: Option<Context>)
    ensures r == Created(suite, wireVersion, encKey, macKey, fixedIv, keyOk)
    ensures r.Some? ==> ContextOk(r.value)
  {
    var version := ProtocolVersion(wireVersion);
    if version.None? {
      return None;
    }
    var sizes := AeadSizes(suite, version.value);
    if sizes.None? || sizes.value.fixedIv != |fixedIv| || sizes.value.mac != |macKey| {
      return None;
    }
    var key := encKey;
    if macKey != [] {
      if |macKey| + |encKey| + |fixedIv| > MAX_KEY_LENGTH {
        return None;
      }
      key := macKey + encKey + fixedIv;
    }
    var ctx := NULL_CIPHER.(suite := Some(suite), key := key);
    if !keyOk {
      return None;
    }
    ctx := ctx.(variableLen := sizes.value.nonce);
    if macKey == [] {
      ctx := ctx.(fixedNonce := fixedIv);
      if suite.enc == ChaCha20Poly1305 {
        ctx := ctx.(xorNonce := true, variableLen := 8);
      } else {
        ctx := ctx.(variableLen := ctx.variableLen - |fixedIv|);
      }
      if suite.enc == Aes128Gcm || suite.enc == Aes256Gcm {
        ctx := ctx.(included := true);
      }
      if version.value >= TLS1_3_VERSION {
        ctx := ctx.(xorNonce := true, variableLen := 8, included := false, omitAd := true);
      }
    } else {
      ctx := ctx.(included := true, random := true, omitLength := true, omitVersion := version.value == SSL3_VERSION);
    }
    r := Some(ctx);
  }

  // The three constructions: the sequence number after a fixed part, the
  // sequence number under a fixed mask, or a random explicit nonce.
  datatype Construction = Prepended | Masked | RandomIv

  function ConstructionOf(suite: Suite, version: nat): Construction {
    if suite.mac != AeadMac then RandomIv
    else if version >= TLS1_3_VERSION || suite.enc == ChaCha20Poly1305 then Masked
    else Prepended
  }

  function Created(suite: Suite, wireVersion: nat, encKey: seq<byte>, macKey: seq<byte>, fixedIv: seq<byte>, keyOk: bool): Option<Context> {
    var v := ProtocolVersion(wireVersion);
    if v.None? then None
    else
      var sizes := AeadSizes(suite, v.value);
      if sizes.None? || |fixedIv| != sizes.value.fixedIv || |macKey| != sizes.value.mac || !keyOk
         || (macKey != [] && |macKey| + |encKey| + |fixedIv| > MAX_KEY_LENGTH) then None
      else
        match ConstructionOf(suite, v.value)
        case RandomIv =>
          Some(Context(Some(suite), macKey + encKey + fixedIv, [], sizes.value.nonce, true, true, true, v.value == SSL3_VERSION, false, false))
        case Masked =>
          Some(Context(Some(suite), encKey, fixedIv, 8, false, false, false, false, v.value >= TLS1_3_VERSION, true))
        case Prepended =>
          Some(Context(Some(suite), encKey, fixedIv, 8, true, false, false, false, false, false))
  }

  // What every context keeps.  The assertions of Open and SealScatter follow.
  ghost predicate ContextOk(c: Context) {
    && |c.fixedNonce| <= FIXED_NONCE_LENGTH
    && (!c.xorNonce ==> |c.fixedNonce| + c.variableLen <= MAX_NONCE_LENGTH)
    && (c.xorNonce ==> !c.included && !c.random && |c.fixedNonce| >= c.variableLen)
    && (c.suite.Some? && !c.random ==> c.variableLen == 8)
    && (c.random ==> c.included)
    && (c.suite.None? ==> !c.included && !c.xorNonce)
  }

  // ---- Nonces and additional data ----

  function ExplicitNonceLen(c: Context): nat {
    if c.included then c.variableLen else 0
  }

  function NonceOf(c: Context, variable: seq<byte>): seq<byte>
    requires c.xorNonce ==> |variable| <= |c.fixedNonce|
  {
    if c.xorNonce then Xor(Zeros(|c.fixedNonce| - |variable|) + variable, c.fixedNonce) else c.fixedNonce + variable
  }

  // The nonce, put together in place
  method AssembleNonce(c: Context, variable: seq<byte>) returns (nonce: seq<byte>)
    requires ContextOk(c) && |variable| == c.variableLen
    ensures nonce == NonceOf(c, variable)
  {
    var buf := new byte[MAX_NONCE_LENGTH](_ => 0);
    var nonceLen := 0;
    if c.xorNonce {
      nonceLen := |c.fixedNonce| - c.variableLen;
    } else {
      CopyInto(buf, 0, c.fixedNonce);
      nonceLen := |c.fixedNonce|;
    }
    CopyInto(buf, nonceLen, variable);
    nonceLen := nonceLen + c.variableLen;
    ghost var padded := buf[..nonceLen];
    if c.xorNonce {
      assert padded == Zeros(|c.fixedNonce| - |variable|) + variable;
      XorInto(buf, c.fixedNonce);
    }
    nonce := buf[..nonceLen];
  }

  // The loop that applies the mask to the front of the buffer
  method XorInto(buf: array<byte>, mask: seq<byte>)
    requires |mask| <= buf.Length
    modifies buf
    ensures buf[..|mask|] == Xor(old(buf[..|mask|]), mask)
  {
    ghost var was := buf[..|mask|];
    var i := 0;
    while i < |mask|
      invariant 0 <= i <= |mask|
      invariant forall k | 0 <= k < i :: buf[k] == XorByte(was[k], mask[k])
      invariant forall k | i <= k < |mask| :: buf[k] == was[k]
    {
      buf[i] := XorByte(buf[i], mask[i]);
      i := i + 1;
    }
  }

  // memcpy
  method CopyInto(buf: array<byte>, at: nat, data: seq<byte>)
    requires at + |data| <= buf.Length
    modifies buf
    ensures buf[..] == old(buf[..at]) + data + old(buf[at + |data|..])
  {
    forall i | 0 <= i < |data| {
      buf[at + i] := data[i];
    }
  }

  // Section 3 of RFC 5288: the fixed part, then the variable part.  Section 2 of
  // RFC 7905: the variable part, padded on the left, under the fixed part.
  lemma NonceLayout(c: Context, variable: seq<byte>, i: nat, k: nat)
    requires ContextOk(c) && |variable| == c.variableLen && i < |NonceOf(c, variable)| && k < 8
    ensures !c.xorNonce ==> NonceOf(c, variable)[i] == if i < |c.fixedNonce| then c.fixedNonce[i] else variable[i - |c.fixedNonce|]
    ensures c.xorNonce ==>
      var pad := |c.fixedNonce| - |variable|;
      && |NonceOf(c, variable)| == |c.fixedNonce| && pad >= 0
      && (Bit(NonceOf(c, variable)[i], k) == 1 <==> Bit(c.fixedNonce[i], k) != Bit(if i < pad then 0 else variable[i - pad], k))
  {
    if c.xorNonce {
      var padded := Zeros(|c.fixedNonce| - |variable|) + variable;
      XorBitsAt(padded[i], c.fixedNonce[i], 8, k);
    }
  }

  // Which number a nonce was made from: two different ones never give one nonce.
  lemma NonceIsInjective(c: Context, a: seq<byte>, b: seq<byte>)
    requires ContextOk(c) && |a| == |b| == c.variableLen && NonceOf(c, a) == NonceOf(c, b)
    ensures a == b
  {
    var n := |c.fixedNonce|;
    if c.xorNonce {
      var pad := Zeros(n - |a|);
      XorIsInjective(pad + a, pad + b, c.fixedNonce);
      assert (pad + a)[|pad|..] == a && (pad + b)[|pad|..] == b;
    } else {
      assert (c.fixedNonce + a)[n..] == a && (c.fixedNonce + b)[n..] == b;
    }
  }

  function AdditionalData(c: Context, ty: byte, recordVersion: nat, seqnum: seq<byte>, plaintextLen: nat): seq<byte>
    requires recordVersion < 0x1_0000
  {
    if c.omitAd then []
    else
      seqnum + [ty] + (if c.omitVersion then [] else U16(recordVersion))
      + if c.omitLength then [] else U16(plaintextLen % 0x1_0000)
  }

  // SSLAEADContext::GetAdditionalData
  method GetAdditionalData(c: Context, out: array<byte>, ty: byte, recordVersion: nat, seqnum: seq<byte>, plaintextLen: nat) returns (len: nat)
    requires out.Length == 13 && |seqnum| == 8 && recordVersion < 0x1_0000
    modifies out
    ensures len <= 13 && out[..len] == AdditionalData(c, ty, recordVersion, seqnum, plaintextLen)
  {
    if c.omitAd {
      return 0;
    }
    assert U16(recordVersion) == [recordVersion / 0x100, recordVersion % 0x100];
    LengthBytes(plaintextLen);
    hide U16;
    CopyInto(out, 0, seqnum);
    assert out[..8] == seqnum;
    len := 8;
    out[len] := ty;
    len := len + 1;
    if !c.omitVersion {
      out[len], out[len + 1] := recordVersion / 0x100, recordVersion % 0x100;
      len := len + 2;
    }
    if !c.omitLength {
      out[len], out[len + 1] := plaintextLen / 0x100 % 0x100, plaintextLen % 0x100;
      len := len + 2;
    }
  }

  lemma LengthBytes(n: nat)
    ensures U16(n % 0x1_0000) == [n / 0x100 % 0x100, n % 0x100]
  {
    var q, r := n / 0x1_0000, n % 0x1_0000;
    assert n == (q * 0x100 + r / 0x100) * 0x100 + r % 0x100;
    assert n / 0x100 == q * 0x100 + r / 0x100;
  }

  // Section 6.2.3.3 of RFC 5246: sequence number, type, version and length of
  // the plaintext, in this order; what a cipher leaves out leaves no gap.
  lemma AdditionalDataLayout(c: Context, ty: byte, version: nat, seqnum: seq<byte>, n: nat)
    requires version < 0x1_0000 && |seqnum| == 8 && !c.omitAd
    ensures var ad, at := AdditionalData(c, ty, version, seqnum, n), if c.omitVersion then 9 else 11;
      && |ad| == at + (if c.omitLength then 0 else 2)
      && ad[..8] == seqnum && ad[8] == ty
      && (!c.omitVersion ==> 0x100 * (ad[9] as nat) + ad[10] as nat == version)
      && (!c.omitLength && n < 0x1_0000 ==> 0x100 * (ad[at] as nat) + ad[at + 1] as nat == n)
  {
    assert AdditionalData(c, ty, version, seqnum, n)[..8] == seqnum;
  }

  // The additional data binds the number, the type, and, where they are there,
  // the version and the length.
  lemma AdditionalDataIsInjective(c: Context, ty: byte, version: nat, seqnum: seq<byte>, n: nat, ty': byte, version': nat, seqnum': seq<byte>, n': nat)
    requires version < 0x1_0000 && version' < 0x1_0000 && |seqnum| == |seqnum'| == 8 && !c.omitAd
    requires AdditionalData(c, ty, version, seqnum, n) == AdditionalData(c, ty', version', seqnum', n')
    ensures seqnum == seqnum' && ty == ty' && (!c.omitVersion ==> version == version')
    ensures !c.omitLength ==> n % 0x1_0000 == n' % 0x1_0000
  {
    var a, b := AdditionalData(c, ty, version, seqnum, n), AdditionalData(c, ty', version', seqnum', n');
    assert a[..8] == seqnum && b[..8] == seqnum';
    assert a[8] == ty && b[8] == ty';
    if !c.omitVersion {
      assert a[9..11] == U16(version) && b[9..11] == U16(version');
      assert Get16(U16(version)) == version && Get16(U16(version')) == version';
    }
    if !c.omitLength {
      assert a[|a| - 2..] == U16(n % 0x1_0000) && b[|a| - 2..] == U16(n' % 0x1_0000);
      assert Get16(U16(n % 0x1_0000)) == n % 0x1_0000 && Get16(U16(n' % 0x1_0000)) == n' % 0x1_0000;
    }
  }

  // ---- Sealing and opening ----

  // An AEAD: its tag length may depend on the length of the plaintext.
  datatype Aead = Aead(maxOverhead: nat, tagLen: nat -> nat,
                       seal: (seq<byte>, seq<byte>, seq<byte>, seq<byte>) -> seq<byte>,
                       open: (seq<byte>, seq<byte>, seq<byte>, seq<byte>) -> Option<seq<byte>>)

  // Opening undoes sealing, and a ciphertext is as long as its plaintext and tag.
  ghost predicate Correct(a: Aead) {
    forall k, n, d, p :: |a.seal(k, n, d, p)| == |p| + a.tagLen(|p|) && a.open(k, n, d, a.seal(k, n, d, p)) == Some(p)
  }

  lemma CorrectAt(a: Aead, key: seq<byte>, nonce: seq<byte>, ad: seq<byte>, p: seq<byte>)
    requires Correct(a)
    ensures |a.seal(key, nonce, ad, p)| == |p| + a.tagLen(|p|) && a.open(key, nonce, ad, a.seal(key, nonce, ad, p)) == Some(p)
  {
  }

  // One use of the AEAD to seal, and one to open
  datatype Sealing = Sealing(key: seq<byte>, nonce: seq<byte>, ad: seq<byte>, plaintext: seq<byte>)
  datatype Opening = Opening(key: seq<byte>, nonce: seq<byte>, ad: seq<byte>, body: seq<byte>)

  function BodyOf(a: Aead, q: Sealing): seq<byte> {
    a.seal(q.key, q.nonce, q.ad, q.plaintext)
  }

  // The opening is no forgery: if it succeeds, its body was sealed so.  This
  // is asked of single openings against what has been sealed by then, since no
  // AEAD with short tags can promise it of all openings there are.
  ghost predicate NoForgery(a: Aead, log: seq<Sealing>, o: Opening) {
    a.open(o.key, o.nonce, o.ad, o.body).Some? ==>
      exists q :: q in log && q.key == o.key && q.nonce == o.nonce && q.ad == o.ad && BodyOf(a, q) == o.body
  }

  // No nonce was used twice under one key.
  ghost predicate NonceRespecting(log: seq<Sealing>) {
    forall i, j | 0 <= i < j < |log| && log[i].key == log[j].key :: log[i].nonce != log[j].nonce
  }

  // Under one key a nonce names one sealing.
  lemma NonceNamesSealing(log: seq<Sealing>, q: Sealing, r: Sealing)
    requires NonceRespecting(log) && q in log && r in log && q.key == r.key && q.nonce == r.nonce
    ensures q == r
  {
    var i :| 0 <= i < |log| && log[i] == q;
    var j :| 0 <= j < |log| && log[j] == r;
    assert i == j;
  }

  // What a record says beside its bytes
  datatype RecordInfo = RecordInfo(ty: byte, version: nat, seqnum: seq<byte>)

  ghost predicate InfoOk(i: RecordInfo) {
    i.version < 0x1_0000 && |i.seqnum| == 8
  }

  function MaxOverhead(c: Context, a: Aead): nat {
    ExplicitNonceLen(c) + if c.suite.None? then 0 else a.maxOverhead
  }

  function SuffixLen(c: Context, a: Aead, inLen: nat, extraLen: nat): nat {
    if c.suite.None? then extraLen else extraLen + a.tagLen(inLen + extraLen)
  }

  // The variable part of the nonce
  function Variable(c: Context, seqnum: seq<byte>, rand: seq<byte>): seq<byte> {
    if c.random then rand else seqnum
  }

  // The use of the AEAD that seals a record
  function SealingOf(c: Context, i: RecordInfo, rand: seq<byte>, input: seq<byte>, extra: seq<byte>): Sealing
    requires i.version < 0x1_0000 && (c.xorNonce ==> |Variable(c, i.seqnum, rand)| <= |c.fixedNonce|)
  {
    Sealing(c.key, NonceOf(c, Variable(c, i.seqnum, rand)), AdditionalData(c, i.ty, i.version, i.seqnum, |input|), input + extra)
  }

  // What is on the wire after sealing: explicit nonce, then ciphertext and tag
  function Sealed(c: Context, a: Aead, i: RecordInfo, rand: seq<byte>, input: seq<byte>, extra: seq<byte>): seq<byte>
    requires i.version < 0x1_0000 && (c.xorNonce ==> |Variable(c, i.seqnum, rand)| <= |c.fixedNonce|)
  {
    if c.suite.None? then input + extra
    else (if c.included then Variable(c, i.seqnum, rand) else []) + BodyOf(a, SealingOf(c, i, rand, input, extra))
  }

  // The data a receiver authenticates against
  function OpenLength(c: Context, a: Aead, size: nat): nat {
    if !c.omitLength && size >= MaxOverhead(c, a) then size - MaxOverhead(c, a) else 0
  }

  predicate LongEnough(c: Context, a: Aead, size: nat) {
    (c.omitLength || size >= MaxOverhead(c, a)) && size >= ExplicitNonceLen(c)
  }

  // The use of the AEAD that opens a record
  function OpeningOf(c: Context, a: Aead, i: RecordInfo, input: seq<byte>): Opening
    requires i.version < 0x1_0000 && (c.xorNonce ==> |i.seqnum| <= |c.fixedNonce| && !c.included)
    requires LongEnough(c, a, |input|)
  {
    var variable := if c.included then input[..c.variableLen] else i.seqnum;
    Opening(c.key, NonceOf(c, variable), AdditionalData(c, i.ty, i.version, i.seqnum, OpenLength(c, a, |input|)), input[ExplicitNonceLen(c)..])
  }

  function Opened(c: Context, a: Aead, i: RecordInfo, input: seq<byte>): Option<seq<byte>>
    requires i.version < 0x1_0000 && (c.xorNonce ==> |i.seqnum| <= |c.fixedNonce| && !c.included)
  {
    if c.suite.None? then Some(input)
    else if !LongEnough(c, a, |input|) then None
    else
      var o := OpeningOf(c, a, i, input);
      a.open(o.key, o.nonce, o.ad, o.body)
  }

  // The receiver's use of the AEAD for this input is no forgery.
  ghost predicate Genuine(c: Context, a: Aead, log: seq<Sealing>, i: RecordInfo, input: seq<byte>)
    requires i.version < 0x1_0000 && (c.xorNonce ==> |i.seqnum| <= |c.fixedNonce| && !c.included)
  {
    LongEnough(c, a, |input|) ==> NoForgery(a, log, OpeningOf(c, a, i, input))
  }

  // The output is exactly prefix, input and suffix long.
  lemma SealedLength(c: Context, a: Aead, i: RecordInfo, rand: seq<byte>, input: seq<byte>, extra: seq<byte>)
    requires Correct(a) && ContextOk(c) && InfoOk(i) && (c.random ==> |rand| == c.variableLen)
    ensures |Sealed(c, a, i, rand, input, extra)| == ExplicitNonceLen(c) + |input| + SuffixLen(c, a, |input|, |extra|)
  {
    var q := SealingOf(c, i, rand, input, extra);
    CorrectAt(a, q.key, q.nonce, q.ad, q.plaintext);
  }

  // Where the length is authenticated, the receiver works it out from the
  // size of the record: right when the tag is as long as the overhead allows
  // and nothing extra was sealed, or by 16-bit accident.
  predicate LengthAgrees(c: Context, a: Aead, inLen: nat, extraLen: nat) {
    c.omitLength
    || (extraLen + a.tagLen(inLen + extraLen) + inLen >= a.maxOverhead
        && (c.omitAd || (extraLen + a.tagLen(inLen + extraLen) + inLen - a.maxOverhead) % 0x1_0000 == inLen % 0x1_0000))
  }

  // What the receiver makes of a sealed record: the same nonce and body, and
  // the same additional data exactly when the lengths agree.
  lemma OpeningMeetsSealing(c: Context, a: Aead, i: RecordInfo, rand: seq<byte>, input: seq<byte>, extra: seq<byte>)
    requires Correct(a) && ContextOk(c) && InfoOk(i) && (c.random ==> |rand| == c.variableLen) && c.suite.Some?
    ensures var s, q := Sealed(c, a, i, rand, input, extra), SealingOf(c, i, rand, input, extra);
      && (LengthAgrees(c, a, |input|, |extra|) ==> LongEnough(c, a, |s|))
      && (LongEnough(c, a, |s|) ==>
            var o := OpeningOf(c, a, i, s);
            o.key == q.key && o.nonce == q.nonce && o.body == BodyOf(a, q) && (o.ad == q.ad <==> LengthAgrees(c, a, |input|, |extra|)))
  {
    SealedLength(c, a, i, rand, input, extra);
    hide Correct, NonceOf, Sealed, SealingOf;
    var s, v := Sealed(c, a, i, rand, input, extra), Variable(c, i.seqnum, rand);
    SealedParts(c, a, i, rand, input, extra);
    if LongEnough(c, a, |s|) {
      var n, n' := |input|, OpenLength(c, a, |s|);
      SameAdditionalData(c, i, n, n');
    }
  }

  lemma SealedParts(c: Context, a: Aead, i: RecordInfo, rand: seq<byte>, input: seq<byte>, extra: seq<byte>)
    requires ContextOk(c) && InfoOk(i) && (c.random ==> |rand| == c.variableLen) && c.suite.Some?
    ensures var s, q, v := Sealed(c, a, i, rand, input, extra), SealingOf(c, i, rand, input, extra), Variable(c, i.seqnum, rand);
      && |s| >= ExplicitNonceLen(c) && s[ExplicitNonceLen(c)..] == BodyOf(a, q) && (c.included ==> s[..c.variableLen] == v)
      && q.key == c.key && q.nonce == NonceOf(c, v) && q.ad == AdditionalData(c, i.ty, i.version, i.seqnum, |input|) && q.plaintext == input + extra
  {
  }

  lemma SameAdditionalData(c: Context, i: RecordInfo, n: nat, n': nat)
    requires InfoOk(i)
    ensures AdditionalData(c, i.ty, i.version, i.seqnum, n) == AdditionalData(c, i.ty, i.version, i.seqnum, n')
        <==> c.omitAd || c.omitLength || n % 0x1_0000 == n' % 0x1_0000
  {
    if !c.omitAd && AdditionalData(c, i.ty, i.version, i.seqnum, n) == AdditionalData(c, i.ty, i.version, i.seqnum, n') {
      AdditionalDataIsInjective(c, i.ty, i.version, i.seqnum, n, i.ty, i.version, i.seqnum, n');
    }
  }

  // Open undoes Seal when the length the receiver works out is the one that
  // was sealed.
  lemma OpenUndoesSeal(c: Context, a: Aead, i: RecordInfo, rand: seq<byte>, input: seq<byte>, extra: seq<byte>)
    requires Correct(a) && ContextOk(c) && InfoOk(i) && (c.random ==> |rand| == c.variableLen)
    requires c.suite.None? || LengthAgrees(c, a, |input|, |extra|)
    ensures Opened(c, a, i, Sealed(c, a, i, rand, input, extra)) == Some(input + extra)
  {
    if c.suite.Some? {
      OpeningMeetsSealing(c, a, i, rand, input, extra);
      var q := SealingOf(c, i, rand, input, extra);
      CorrectAt(a, q.key, q.nonce, q.ad, q.plaintext);
    }
  }

  // An opening under the nonce of a sealing is of its additional data.
  lemma OpensAsSealed(a: Aead, log: seq<Sealing>, q: Sealing, o: Opening)
    requires NoForgery(a, log, o) && NonceRespecting(log) && q in log && q.key == o.key && q.nonce == o.nonce
    requires a.open(o.key, o.nonce, o.ad, o.body).Some?
    ensures q.ad == o.ad && BodyOf(a, q) == o.body
  {
    var r :| r in log && r.key == o.key && r.nonce == o.nonce && r.ad == o.ad && BodyOf(a, r) == o.body;
    NonceNamesSealing(log, q, r);
  }

  // And only then: otherwise the receiver would open under the nonce of this
  // record what was sealed with other additional data.
  lemma OpensOnlyIfLengthAgrees(c: Context, a: Aead, log: seq<Sealing>, i: RecordInfo, rand: seq<byte>, input: seq<byte>, extra: seq<byte>)
    requires Correct(a) && ContextOk(c) && InfoOk(i) && (c.random ==> |rand| == c.variableLen)
    requires c.suite.Some? && SealingOf(c, i, rand, input, extra) in log && NonceRespecting(log)
    requires Genuine(c, a, log, i, Sealed(c, a, i, rand, input, extra))
    ensures Opened(c, a, i, Sealed(c, a, i, rand, input, extra))
         == if LengthAgrees(c, a, |input|, |extra|) then Some(input + extra) else None
  {
    if LengthAgrees(c, a, |input|, |extra|) {
      OpenUndoesSeal(c, a, i, rand, input, extra);
    } else {
      OpeningMeetsSealing(c, a, i, rand, input, extra);
      hide Correct, NonceOf, Sealed, SealingOf, AdditionalData, NonceRespecting, LengthAgrees, NoForgery, BodyOf, OpeningOf;
      var s := Sealed(c, a, i, rand, input, extra);
      if Opened(c, a, i, s).Some? {
        OpensAsSealed(a, log, SealingOf(c, i, rand, input, extra), OpeningOf(c, a, i, s));
      }
    }
  }

  // In particular, with a tag of fixed length and nothing extra.
  lemma FixedTagRoundTrip(c: Context, a: Aead, i: RecordInfo, rand: seq<byte>, input: seq<byte>)
    requires Correct(a) && ContextOk(c) && InfoOk(i) && (c.random ==> |rand| == c.variableLen)
    requires a.tagLen(|input|) == a.maxOverhead
    ensures Opened(c, a, i, Sealed(c, a, i, rand, input, [])) == Some(input)
  {
    OpenUndoesSeal(c, a, i, rand, input, []);
    assert input + [] == input;
  }

  // A record as it was sealed
  datatype SealedRecord = SealedRecord(info: RecordInfo, rand: seq<byte>, input: seq<byte>)

  ghost predicate RecordsOk(c: Context, records: seq<SealedRecord>) {
    forall k | 0 <= k < |records| :: InfoOk(records[k].info) && (c.random ==> |records[k].rand| == c.variableLen)
  }

  ghost function SealingsOf(c: Context, records: seq<SealedRecord>): (log: seq<Sealing>)
    requires ContextOk(c) && RecordsOk(c, records) && c.suite.Some?
    ensures |log| == |records|
    ensures forall k | 0 <= k < |log| :: log[k] == SealingOf(c, records[k].info, records[k].rand, records[k].input, [])
  {
    seq(|records|, k requires 0 <= k < |records| => SealingOf(c, records[k].info, records[k].rand, records[k].input, []))
  }

  // What opens is the sealing of some record.
  lemma OpenedIsSealed(c: Context, a: Aead, records: seq<SealedRecord>, j: RecordInfo, wire: seq<byte>) returns (k: nat)
    requires Correct(a) && ContextOk(c) && InfoOk(j) && c.suite.Some? && RecordsOk(c, records)
    requires Opened(c, a, j, wire).Some? && Genuine(c, a, SealingsOf(c, records), j, wire)
    ensures k < |records| && LongEnough(c, a, |wire|)
    ensures var r, o := records[k], OpeningOf(c, a, j, wire);
      var q := SealingOf(c, r.info, r.rand, r.input, []);
      q.nonce == o.nonce && q.ad == o.ad && BodyOf(a, q) == o.body && Opened(c, a, j, wire) == Some(q.plaintext)
  {
    hide NonceOf, AdditionalData, SealingOf, OpeningOf, Correct;
    var log, o := SealingsOf(c, records), OpeningOf(c, a, j, wire);
    var q :| q in log && q.key == o.key && q.nonce == o.nonce && q.ad == o.ad && BodyOf(a, q) == o.body;
    k :| 0 <= k < |log| && log[k] == q;
    CorrectAt(a, q.key, q.nonce, q.ad, q.plaintext);
  }

  // The same nonce, body and additional data: the same record.
  lemma SameUse(c: Context, a: Aead, r: SealedRecord, j: RecordInfo, wire: seq<byte>)
    requires ContextOk(c) && InfoOk(j) && InfoOk(r.info) && c.suite.Some? && (c.random ==> |r.rand| == c.variableLen)
    requires LongEnough(c, a, |wire|)
    requires var q, o := SealingOf(c, r.info, r.rand, r.input, []), OpeningOf(c, a, j, wire);
      q.nonce == o.nonce && q.ad == o.ad && BodyOf(a, q) == o.body
    ensures wire == Sealed(c, a, r.info, r.rand, r.input, [])
    ensures !c.omitAd ==> r.info.seqnum == j.seqnum && r.info.ty == j.ty && (!c.omitVersion ==> r.info.version == j.version)
    ensures !c.random && !c.included ==> r.info.seqnum == j.seqnum
  {
    hide NonceOf, AdditionalData, BodyOf;
    var v, w := Variable(c, r.info.seqnum, r.rand), if c.included then wire[..c.variableLen] else j.seqnum;
    NonceIsInjective(c, v, w);
    assert wire == wire[..ExplicitNonceLen(c)] + wire[ExplicitNonceLen(c)..];
    if !c.omitAd {
      AdditionalDataIsInjective(c, r.info.ty, r.info.version, r.info.seqnum, |r.input|, j.ty, j.version, j.seqnum, OpenLength(c, a, |wire|));
    }
  }

  // Whatever arrives: what opens as the record j was sealed, byte for byte, as
  // a record of the same number, type and, where it is authenticated, version,
  // and what comes out is what went in.
  lemma OpenBindsTheRecord(c: Context, a: Aead, records: seq<SealedRecord>, j: RecordInfo, wire: seq<byte>) returns (k: nat)
    requires Correct(a) && ContextOk(c) && InfoOk(j) && c.suite.Some? && RecordsOk(c, records)
    requires Opened(c, a, j, wire).Some? && Genuine(c, a, SealingsOf(c, records), j, wire)
    ensures k < |records|
    ensures var r := records[k];
      && wire == Sealed(c, a, r.info, r.rand, r.input, []) && Opened(c, a, j, wire) == Some(r.input)
      && (!c.omitAd ==> r.info.seqnum == j.seqnum && r.info.ty == j.ty && (!c.omitVersion ==> r.info.version == j.version))
      && (!c.random && !c.included ==> r.info.seqnum == j.seqnum)
  {
    k := OpenedIsSealed(c, a, records, j, wire);
    var r := records[k];
    assert r.input + [] == r.input;
    hide Correct, Genuine, NonceOf, AdditionalData, BodyOf, OpeningOf, Opened, Sealed;
    SameUse(c, a, r, j, wire);
  }

  // ---- An AEAD that meets what is asked of one ----

  const AD_LENGTH := 13

  function Padded(s: seq<byte>, n: nat): (p: seq<byte>)
    requires |s| <= n <= 0xff
    ensures |p| == n + 1
  {
    [|s|] + s + Zeros(n - |s|)
  }

  lemma PaddedIsInjective(s: seq<byte>, s': seq<byte>, n: nat)
    requires |s| <= n && |s'| <= n <= 0xff && Padded(s, n) == Padded(s', n)
    ensures s == s'
  {
    assert Padded(s, n)[0] == |s| && Padded(s', n)[0] == |s'|;
    assert Padded(s, n)[1..|s| + 1] == s && Padded(s', n)[1..|s'| + 1] == s';
  }

  const TAG_LENGTH := MAX_NONCE_LENGTH + AD_LENGTH + 2

  // The tag is the nonce and the additional data, as far as a record has such.
  function PlainTag(nonce: seq<byte>, ad: seq<byte>): (tag: seq<byte>)
    ensures |tag| == TAG_LENGTH
  {
    if |nonce| <= MAX_NONCE_LENGTH && |ad| <= AD_LENGTH then Padded(nonce, MAX_NONCE_LENGTH) + Padded(ad, AD_LENGTH) else Zeros(TAG_LENGTH)
  }

  function PlainSeal(key: seq<byte>, nonce: seq<byte>, ad: seq<byte>, p: seq<byte>): seq<byte> {
    p + PlainTag(nonce, ad)
  }

  function PlainOpen(key: seq<byte>, nonce: seq<byte>, ad: seq<byte>, c: seq<byte>): Option<seq<byte>> {
    if |c| >= TAG_LENGTH && c[|c| - TAG_LENGTH..] == PlainTag(nonce, ad) then Some(c[..|c| - TAG_LENGTH]) else None
  }

  const PLAIN: Aead := Aead(TAG_LENGTH, _ => TAG_LENGTH, PlainSeal, PlainOpen)

  lemma PlainTagIsInjective(nonce: seq<byte>, ad: seq<byte>, nonce': seq<byte>, ad': seq<byte>)
    requires |nonce| <= MAX_NONCE_LENGTH && |ad| <= AD_LENGTH && |nonce'| <= MAX_NONCE_LENGTH && |ad'| <= AD_LENGTH
    requires PlainTag(nonce, ad) == PlainTag(nonce', ad')
    ensures nonce == nonce' && ad == ad'
  {
    var m := MAX_NONCE_LENGTH + 1;
    assert PlainTag(nonce, ad)[..m] == Padded(nonce, MAX_NONCE_LENGTH) && PlainTag(nonce, ad)[m..] == Padded(ad, AD_LENGTH);
    assert PlainTag(nonce', ad')[..m] == Padded(nonce', MAX_NONCE_LENGTH) && PlainTag(nonce', ad')[m..] == Padded(ad', AD_LENGTH);
    PaddedIsInjective(nonce, nonce', MAX_NONCE_LENGTH);
    PaddedIsInjective(ad, ad', AD_LENGTH);
  }

  // There is an AEAD that is correct, and no opening of anything that it
  // sealed under the key, under any nonce and additional data a record can
  // have, is a forgery.
  lemma AssumptionsCanBeMet(log: seq<Sealing>, q: Sealing, nonce: seq<byte>, ad: seq<byte>)
    requires q in log && |q.nonce| <= MAX_NONCE_LENGTH && |q.ad| <= AD_LENGTH && |nonce| <= MAX_NONCE_LENGTH && |ad| <= AD_LENGTH
    ensures Correct(PLAIN) && NoForgery(PLAIN, log, Opening(q.key, nonce, ad, BodyOf(PLAIN, q)))
  {
    PlainIsCorrect();
    var c := BodyOf(PLAIN, q);
    assert c == q.plaintext + PlainTag(q.nonce, q.ad);
    assert c[|c| - TAG_LENGTH..] == PlainTag(q.nonce, q.ad);
    hide PlainTag;
    if PlainTag(nonce, ad) == PlainTag(q.nonce, q.ad) {
      PlainTagIsInjective(nonce, ad, q.nonce, q.ad);
    }
  }

  // So all that is asked holds of it when sealed records are delivered, as
  // whatever record and however often.
  lemma ReplaysAreGenuine(c: Context, records: seq<SealedRecord>, k: nat, j: RecordInfo)
    requires ContextOk(c) && c.suite.Some? && RecordsOk(c, records) && k < |records| && InfoOk(j)
    ensures Correct(PLAIN)
    ensures Genuine(c, PLAIN, SealingsOf(c, records), j, Sealed(c, PLAIN, records[k].info, records[k].rand, records[k].input, []))
  {
    PlainIsCorrect();
    var r, log := records[k], SealingsOf(c, records);
    var wire, q := Sealed(c, PLAIN, r.info, r.rand, r.input, []), SealingOf(c, r.info, r.rand, r.input, []);
    SealedParts(c, PLAIN, r.info, r.rand, r.input, []);
    assert log[k] == q;
    if LongEnough(c, PLAIN, |wire|) {
      var o := OpeningOf(c, PLAIN, j, wire);
      hide Correct, BodyOf;
      AssumptionsCanBeMet(log, q, o.nonce, o.ad);
    }
  }

  lemma PlainIsCorrect()
    ensures Correct(PLAIN)
  {
    forall k, n, d, p
      ensures |PlainSeal(k, n, d, p)| == |p| + TAG_LENGTH && PlainOpen(k, n, d, PlainSeal(k, n, d, p)) == Some(p)
    {
      var c := PlainSeal(k, n, d, p);
      assert c[|c| - TAG_LENGTH..] == PlainTag(n, d) && c[..|c| - TAG_LENGTH] == p;
    }
  }

  // ---- The methods ----

  // SSLAEADContext::Open
  method Open(c: Context, a: Aead, i: RecordInfo, input: seq<byte>) returns (r: Option<seq<byte>>)
    requires ContextOk(c) && InfoOk(i)
    ensures r == Opened(c, a, i, input)
  {
    hide NonceOf, AdditionalData, Correct;
    if c.suite.None? {
      return Some(input);
    }
    var plaintextLen := 0;
    if !c.omitLength {
      var overhead := MaxOverhead(c, a);
      if |input| < overhead {
        return None;
      }
      plaintextLen := |input| - overhead;
    }
    var ad := new byte[13](_ => 0);
    var adLen := GetAdditionalData(c, ad, i.ty, i.version, i.seqnum, plaintextLen);
    var variable, body := i.seqnum, input;
    if c.included {
      if |input| < c.variableLen {
        return None;
      }
      variable, body := input[..c.variableLen], input[c.variableLen..];
    }
    var nonce := AssembleNonce(c, variable);
    assert input[0..] == input;
    r := a.open(c.key, nonce, ad[..adLen], body);
  }

  // SSLAEADContext::SealScatter.  rand is what RAND_bytes gives, if it does.
  method SealScatter(c: Context, a: Aead, i: RecordInfo, rand: Option<seq<byte>>, input: seq<byte>, extra: seq<byte>)
    returns (ok: bool, prefix: seq<byte>, body: seq<byte>, suffix: seq<byte>)
    requires ContextOk(c) && InfoOk(i) && Correct(a) && (rand.Some? ==> |rand.value| == c.variableLen)
    ensures ok <==> c.suite.None? || !c.random || rand.Some?
    ensures ok ==> |prefix| == ExplicitNonceLen(c) && |body| == |input| && |suffix| == SuffixLen(c, a, |input|, |extra|)
    ensures ok ==> prefix + body + suffix == Sealed(c, a, i, if rand.Some? then rand.value else [], input, extra)
  {
    prefix, body, suffix := [], input, extra;
    if c.suite.None? {
      ok := true;
      return;
    }
    var ad := new byte[13](_ => 0);
    var adLen := GetAdditionalData(c, ad, i.ty, i.version, i.seqnum, |input|);
    var variable := i.seqnum;
    if c.random {
      if rand.None? {
        return false, prefix, body, suffix;
      }
      variable := rand.value;
    }
    var nonce := AssembleNonce(c, variable);
    if c.included {
      prefix := variable;
    }
    var sealedBytes := a.seal(c.key, nonce, ad[..adLen], input + extra);
    CorrectAt(a, c.key, nonce, ad[..adLen], input + extra);
    body, suffix := sealedBytes[..|input|], sealedBytes[|input|..];
    assert prefix + body + suffix == prefix + sealedBytes;
    ok := true;
  }

  // SSLAEADContext::Seal
  method Seal(c: Context, a: Aead, out: array<byte>, maxOut: nat, i: RecordInfo, rand: Option<seq<byte>>, input: seq<byte>)
    returns (ok: bool, outLen: nat)
    requires ContextOk(c) && InfoOk(i) && Correct(a) && (rand.Some? ==> |rand.value| == c.variableLen) && maxOut <= out.Length
    modifies out
    ensures ok <==> ExplicitNonceLen(c) + |input| + SuffixLen(c, a, |input|, 0) <= maxOut && (c.suite.None? || !c.random || rand.Some?)
    ensures ok ==> outLen <= maxOut && out[..outLen] == Sealed(c, a, i, if rand.Some? then rand.value else [], input, [])
    ensures ok ==> out[outLen..] == old(out[..])[outLen..]
    ensures !ok ==> out[..] == old(out[..])
  {
    outLen := 0;
    var prefixLen, suffixLen := ExplicitNonceLen(c), SuffixLen(c, a, |input|, 0);
    if |input| + prefixLen + suffixLen > maxOut {
      return false, 0;
    }
    var prefix, body, suffix;
    ok, prefix, body, suffix := SealScatter(c, a, i, rand, input, []);
    if !ok {
      return;
    }
    outLen := prefixLen + |input| + suffixLen;
    hide *;
    CopyInto(out, 0, prefix + body + suffix);
    assert out[..outLen] == prefix + body + suffix;
  }
}

// The sliding window of 64 record sequence numbers that DTLS uses to drop
// replayed records (DTLS1_BITMAP, dtls1_bitmap_should_discard and
// dtls1_bitmap_record; section 4.1.2.6 of RFC 6347).
module ReplayWindow {

  const WINDOW_SIZE := 64
  const MAX_UINT64 := 0xFFFF_FFFF_FFFF_FFFF

  // An integer as a 64-bit word, by its binary digits; the solver handles this
  // better than its own conversion.
  function Word(i: nat): bv64 {
    if i == 0 then 0 else (Word(i / 2) << 1) | (if i % 2 == 1 then 1 else 0)
  }

  // One more digit at most doubles the bound.
  lemma WordBelow(i: nat, bound: bv64)
    requires Word(i / 2) < bound && bound <= 32
    ensures Word(i) < bound << 1
  {
  }

  lemma WordIsSmall(i: nat)
    requires i < WINDOW_SIZE
    ensures Word(i) < 64
  {
    assert i / 2 / 2 / 2 / 2 / 2 / 2 == 0;
    WordBelow(i / 2 / 2 / 2 / 2 / 2, 1);
    WordBelow(i / 2 / 2 / 2 / 2, 2);
    WordBelow(i / 2 / 2 / 2, 4);
    WordBelow(i / 2 / 2, 8);
    WordBelow(i / 2, 16);
    WordBelow(i, 32);
  }

  lemma {:induction false} WordIsInjective(i: nat, k: nat)
    requires i < WINDOW_SIZE && k < WINDOW_SIZE
    requires Word(i) == Word(k)
    ensures i == k
  {
    WordIsSmall(i / 2);
    WordIsSmall(k / 2);
    if i != 0 || k != 0 {
      DoubleIsInjective(Word(i / 2), Word(k / 2), i % 2 == 1, k % 2 == 1);
      if i == 0 {
        WordIsInjective(0, k / 2);
      } else {
        WordIsInjective(i / 2, k / 2);
      }
    }
  }

  lemma DoubleIsInjective(v: bv64, w: bv64, a: bool, b: bool)
    requires v < 64 && w < 64
    requires (v << 1) | (if a then 1 else 0) == (w << 1) | (if b then 1 else 0)
    ensures v == w && a == b
  {
    HalfOfDouble(v, if a then 1 else 0);
    HalfOfDouble(w, if b then 1 else 0);
  }

  lemma HalfOfDouble(v: bv64, d: bv64)
    requires v < 64 && d < 2
    ensures ((v << 1) | d) >> 1 == v && ((v << 1) | d) & 1 == d
  {
  }

  lemma {:induction false} WordOfSuccessor(i: nat)
    ensures Word(i + 1) == Word(i) + 1
  {
    if i % 2 == 1 {
      WordOfSuccessor(i / 2);
    }
  }

  predicate BitAt(map64: bv64, w: bv64)
    requires w < 64
  {
    map64 & ((1 as bv64) << w) != 0
  }

  predicate Bit(map64: bv64, i: nat)
    requires i < WINDOW_SIZE
  {
    WordIsSmall(i);
    BitAt(map64, Word(i))
  }

  lemma BitAtOfSet(map64: bv64, v: bv64, w: bv64)
    requires v < 64 && w < 64
    ensures BitAt(map64 | ((1 as bv64) << v), w) <==> v == w || BitAt(map64, w)
  {
  }

  lemma BitAtOfShift(map64: bv64, w: bv64)
    requires w < 64
    ensures BitAt(map64 << 1, w) <==> w != 0 && BitAt(map64, w - 1)
  {
  }

  // map64 << shift, one position at a time.
  function ShiftLeft(map64: bv64, shift: nat): bv64 {
    if shift == 0 then map64 else ShiftLeft(map64, shift - 1) << 1
  }

  lemma {:induction false} BitOfShift(map64: bv64, shift: nat, i: nat)
    requires i < WINDOW_SIZE
    ensures Bit(ShiftLeft(map64, shift), i) <==> shift <= i && Bit(map64, i - shift)
    decreases shift
  {
    assert Word(0) == 0;
    hide BitAt, Word;
    if shift != 0 {
      WordIsSmall(i);
      BitAtOfShift(ShiftLeft(map64, shift - 1), Word(i));
      if i != 0 {
        WordOfSuccessor(i - 1);
        BitOfShift(map64, shift - 1, i - 1);
      }
    }
  }

  // map64 | 1 << k
  function SetBit(map64: bv64, k: nat): bv64
    requires k < WINDOW_SIZE
  {
    WordIsSmall(k);
    map64 | ((1 as bv64) << Word(k))
  }

  lemma BitOfSet(map64: bv64, k: nat, i: nat)
    requires k < WINDOW_SIZE && i < WINDOW_SIZE
    ensures Bit(SetBit(map64, k), i) <==> i == k || Bit(map64, i)
  {
    hide BitAt, Word;
    WordIsSmall(k);
    WordIsSmall(i);
    BitAtOfSet(map64, Word(k), Word(i));
    if Word(k) == Word(i) { WordIsInjective(k, i); }
  }

  lemma BitOfZero(i: nat)
    requires i < WINDOW_SIZE
    ensures !Bit(0, i)
  {
    WordIsSmall(i);
    assert 0 & ((1 as bv64) << Word(i)) == 0;
  }

  // map64 describes the 64 numbers up to maxSeqNum: bit i says whether
  // maxSeqNum - i has been recorded.
  ghost predicate Describes(map64: bv64, maxSeqNum: nat, recorded: set<nat>) {
    && (maxSeqNum == 0 || maxSeqNum in recorded)
    && DescribesBelow(map64, maxSeqNum, recorded)
  }

  ghost predicate DescribesBelow(map64: bv64, maxSeqNum: nat, recorded: set<nat>) {
    && (forall s | s in recorded :: s <= maxSeqNum)
    && (forall i: nat | i < WINDOW_SIZE :: Bit(map64, i) <==> i <= maxSeqNum && maxSeqNum - i in recorded)
  }

  // The map once the window has moved up by shift.
  function Slide(map64: bv64, shift: nat): bv64 {
    if shift >= WINDOW_SIZE then 0 else ShiftLeft(map64, shift)
  }

  lemma SlideDescribes(map64: bv64, maxSeqNum: nat, recorded: set<nat>, seqNum: nat)
    requires DescribesBelow(map64, maxSeqNum, recorded) && maxSeqNum < seqNum
    ensures DescribesBelow(Slide(map64, seqNum - maxSeqNum), seqNum, recorded)
  {
    var shift := seqNum - maxSeqNum;
    forall i: nat | i < WINDOW_SIZE
      ensures Bit(Slide(map64, shift), i) <==> i <= seqNum && seqNum - i in recorded
    {
      if shift >= WINDOW_SIZE { BitOfZero(i); } else { BitOfShift(map64, shift, i); }
    }
  }

  lemma SetDescribes(map64: bv64, maxSeqNum: nat, recorded: set<nat>, k: nat)
    requires DescribesBelow(map64, maxSeqNum, recorded) && k <= maxSeqNum
    ensures DescribesBelow(if k < WINDOW_SIZE then SetBit(map64, k) else map64, maxSeqNum, recorded + {maxSeqNum - k})
  {
    if k < WINDOW_SIZE {
      forall i: nat | i < WINDOW_SIZE
        ensures Bit(SetBit(map64, k), i) <==> i <= maxSeqNum && maxSeqNum - i in recorded + {maxSeqNum - k}
      {
        BitOfSet(map64, k, i);
      }
    }
  }

  lemma ZeroDescribesNothing()
    ensures Describes(0, 0, {})
  {
    forall i: nat | i < WINDOW_SIZE { BitOfZero(i); }
  }

  class Bitmap {
    var map64: bv64
    var maxSeqNum: nat
    ghost var recorded: set<nat>  // every number recorded since the last reset

    ghost predicate Valid()
      reads this
    {
      maxSeqNum <= MAX_UINT64 && Describes(map64, maxSeqNum, recorded)
    }

    constructor ()
      ensures Valid() && recorded == {} && maxSeqNum == 0
    {
      map64, maxSeqNum, recorded := 0, 0, {};
      ZeroDescribesNothing();
    }

    // A number is dropped exactly when it has been recorded before, or lies 64
    // or more behind the largest one.
    predicate ShouldDiscard(seqNum: nat)
      requires Valid()
      reads this
      ensures ShouldDiscard(seqNum) <==> seqNum in recorded || seqNum + WINDOW_SIZE <= maxSeqNum
    {
      if seqNum > maxSeqNum then false
      else
        var idx := maxSeqNum - seqNum;
        idx >= WINDOW_SIZE || Bit(map64, idx)
    }

    method Record(seqNum: nat)
      requires Valid() && seqNum <= MAX_UINT64
      modifies this
      ensures Valid()
      ensures recorded == old(recorded) + {seqNum}
      ensures maxSeqNum == if seqNum > old(maxSeqNum) then seqNum else old(maxSeqNum)
    {
      if seqNum > maxSeqNum {
        SlideDescribes(map64, maxSeqNum, recorded, seqNum);
        map64 := Slide(map64, seqNum - maxSeqNum);
        maxSeqNum := seqNum;
      }
      var idx := maxSeqNum - seqNum;
      SetDescribes(map64, maxSeqNum, recorded, idx);
      if idx < WINDOW_SIZE {
        map64 := SetBit(map64, idx);
      }
      recorded := recorded + {seqNum};
    }

    // A change of epoch zeroes every field.
    method Reset()
      modifies this
      ensures Valid() && recorded == {} && maxSeqNum == 0
    {
      map64, maxSeqNum, recorded := 0, 0, {};
      ZeroDescribesNothing();
    }
  }
}

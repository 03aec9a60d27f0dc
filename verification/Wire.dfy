// Byte strings and the big-endian integers that the TLS and DTLS wire formats
// are made of.  CBB appends such integers, CBS takes them off the front.  Also
// the few numbers and strings that several formats share.
module Wire {

  type byte = b: int | 0 <= b < 0x100

  datatype Option<+T> = None | Some(value: T)

  const TWO_32 := 0x1_0000_0000
  const TWO_64 := 0x1_0000_0000_0000_0000

  function Pow2(k: nat): (p: nat)
    ensures p > 0
  {
    if k == 0 then 1 else 2 * Pow2(k - 1)
  }

  function Zeros(n: nat): (s: seq<byte>)
    ensures |s| == n
  {
    seq(n, _ => 0)
  }

  function U16(n: nat): (s: seq<byte>)
    requires n < 0x1_0000
    ensures |s| == 2
  {
    [n / 0x100, n % 0x100]
  }

  function U24(n: nat): (s: seq<byte>)
    requires n < 0x100_0000
    ensures |s| == 3
  {
    [n / 0x1_0000, n / 0x100 % 0x100, n % 0x100]
  }

  function U48(n: nat): (s: seq<byte>)
    requires n < 0x1_0000_0000_0000
    ensures |s| == 6
  {
    U24(n / 0x100_0000) + U24(n % 0x100_0000)
  }

  function Get16(s: seq<byte>): nat
    requires |s| == 2
  {
    s[0] as int * 0x100 + s[1] as int
  }

  function Get24(s: seq<byte>): nat
    requires |s| == 3
  {
    s[0] as int * 0x1_0000 + s[1] as int * 0x100 + s[2] as int
  }

  function Get48(s: seq<byte>): nat
    requires |s| == 6
  {
    Get24(s[..3]) * 0x100_0000 + Get24(s[3..])
  }

  lemma Get16OfU16(n: nat)
    requires n < 0x1_0000
    ensures Get16(U16(n)) == n
  {
  }

  lemma Get24OfU24(n: nat)
    requires n < 0x100_0000
    ensures Get24(U24(n)) == n
  {
  }

  lemma Get48OfU48(n: nat)
    requires n < 0x1_0000_0000_0000
    ensures Get48(U48(n)) == n
  {
    var s := U48(n);
    assert s[..3] == U24(n / 0x100_0000);
    assert s[3..] == U24(n % 0x100_0000);
    Get24OfU24(n / 0x100_0000);
    Get24OfU24(n % 0x100_0000);
    hide U24, Get24;
  }
}

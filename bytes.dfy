/** Fixed-width unsigned integers, the byte sequences they are written as on
    the wire (network byte order), and fitting a byte string to a declared width. */
module Bytes {

  type uint8 = x: int | 0 <= x < 0x100
  type uint16 = x: int | 0 <= x < 0x1_0000
  type uint32 = x: int | 0 <= x < 0x1_0000_0000

  /** The two bytes of a 16-bit field, most significant first. */
  function Be16(x: uint16): (r: seq<uint8>)
    ensures |r| == 2
  {
    [x / 0x100, x % 0x100]
  }

  /** The 16-bit value of two bytes read most significant first. */
  function ReadBe16(hi: uint8, lo: uint8): (x: uint16)
    ensures x / 0x100 == hi && x % 0x100 == lo
  {
    (hi as int) * 0x100 + lo
  }

  /** Two bytes read as a 16-bit field are written back as the same two bytes. */
  lemma ReadBe16RoundTrip(hi: uint8, lo: uint8)
    ensures Be16(ReadBe16(hi, lo)) == [hi, lo]
  {
  }

  /** The four bytes of a 32-bit value, most significant first. */
  function Be32(x: uint32): (r: seq<uint8>)
    ensures |r| == 4
  {
    [x / 0x100_0000, (x / 0x1_0000) % 0x100, (x / 0x100) % 0x100, x % 0x100]
  }

  /** The 32-bit value of four bytes read most significant first. */
  function ReadBe32(b: seq<uint8>): (x: uint32)
    requires |b| == 4
  {
    (b[0] as int) * 0x100_0000 + (b[1] as int) * 0x1_0000 + (b[2] as int) * 0x100 + b[3]
  }

  /** A 16-bit field read back from its wire bytes is the field itself. */
  lemma Be16RoundTrip(x: uint16)
    ensures ReadBe16(Be16(x)[0], Be16(x)[1]) == x
  {
  }

  /** Writing a 32-bit value and reading it back gives the value. */
  lemma Be32RoundTrip(x: uint32)
    ensures ReadBe32(Be32(x)) == x
  {
    var b := Be32(x);
    assert x == (x / 0x1_0000) * 0x1_0000 + x % 0x1_0000;
    assert x / 0x1_0000 == (b[0] as int) * 0x100 + b[1];
    assert x % 0x1_0000 == (b[2] as int) * 0x100 + b[3];
  }

  /** Reading four bytes as a 32-bit value and writing it gives the bytes back. */
  lemma ReadBe32RoundTrip(b: seq<uint8>)
    requires |b| == 4
    ensures Be32(ReadBe32(b)) == b
  {
    var x := ReadBe32(b);
    var hi: int := (b[0] as int) * 0x100 + b[1];
    var lo: int := (b[2] as int) * 0x100 + b[3];
    var mid: int := hi * 0x100 + b[2];
    assert x == mid * 0x100 + b[3];
    assert x / 0x100 == mid && x % 0x100 == b[3];
    assert mid % 0x100 == b[2];
    assert x == hi * 0x1_0000 + lo;
    assert x / 0x1_0000 == hi;
    assert hi % 0x100 == b[1];
    assert x == (b[0] as int) * 0x100_0000 + ((b[1] as int) * 0x1_0000 + lo);
    assert x / 0x100_0000 == b[0];
  }

  /** A string of `n` zero bytes. */
  function Zeros(n: nat): (r: seq<uint8>)
    ensures |r| == n && forall i | 0 <= i < n :: r[i] == 0
  {
    seq(n, _ => 0)
  }

  /** The bytes `s` written into a field of width `n`: cut to the first `n`
      bytes when `s` is longer, padded with zero bytes on the right when it is
      shorter. */
  function Fit(s: seq<uint8>, n: nat): (r: seq<uint8>)
    ensures |r| == n
    ensures forall i | 0 <= i < n :: r[i] == if i < |s| then s[i] else 0
  {
    if n <= |s| then s[..n] else s + Zeros(n - |s|)
  }

  /** A string fitted to a width at least its length and fitted back to its
      own length is unchanged: widening loses nothing. */
  lemma FitWiden(s: seq<uint8>, n: nat)
    requires |s| <= n
    ensures Fit(Fit(s, n), |s|) == s
  {
  }

  /** Fitting `s` to width `w`, to the width `|s|` and to `w` again is the same
      as fitting it to `w` once: whatever the middle step drops is exactly what
      the first step had already dropped or padded. */
  lemma Refit(s: seq<uint8>, w: nat)
    ensures Fit(Fit(Fit(s, w), |s|), w) == Fit(s, w)
  {
    var a := Fit(s, w);
    var b := Fit(a, |s|);
    var c := Fit(b, w);
    forall i | 0 <= i < w
      ensures c[i] == a[i]
    {
      if i < |s| {
        assert b[i] == a[i];
      }
    }
  }

  /** Fitting a string to its own length is the identity. */
  lemma FitSelf(s: seq<uint8>)
    ensures Fit(s, |s|) == s
  {
  }
}

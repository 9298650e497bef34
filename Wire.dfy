/** Bytes, 4-byte alignment, big-endian integers and OSC-strings: the layout
    rules that every field of an Open Sound Control 1.0 packet follows
    (sections "Atomic Data Types", "OSC-string" and "OSC-blob" of the
    Open Sound Control 1.0 specification). */
module Wire {

  newtype byte = b: int | 0 <= b < 256

  datatype Option<+T> = None | Some(value: T)

  datatype Result<+T, +E> = Ok(value: T) | Err(error: E)

  const TWO31: int := 0x8000_0000
  const TWO32: int := 0x1_0000_0000
  const TWO63: int := 0x8000_0000_0000_0000
  const TWO64: int := 0x1_0000_0000_0000_0000

  type uint32 = x: int | 0 <= x < 0x1_0000_0000
  type int32 = x: int | -0x8000_0000 <= x < 0x8000_0000
  type uint64 = x: int | 0 <= x < 0x1_0000_0000_0000_0000
  type int64 = x: int | -0x8000_0000_0000_0000 <= x < 0x8000_0000_0000_0000

  /** n NUL bytes. */
  function Zeros(n: nat): (z: seq<byte>)
    ensures |z| == n
    ensures forall i | 0 <= i < n :: z[i] == 0
  {
    if n == 0 then [] else [0] + Zeros(n - 1)
  }

  /** A C string: no NUL byte inside. */
  predicate NoNul(s: seq<byte>)
  {
    forall i | 0 <= i < |s| :: s[i] != 0
  }

  /** The smallest multiple of 4 that is at least n. */
  function Pad4(n: nat): (p: nat)
    ensures p % 4 == 0 && n <= p < n + 4
  {
    (n + 3) / 4 * 4
  }

  /** Padding commutes with an aligned offset. */
  lemma Pad4Shift(f: nat, x: nat)
    requires f % 4 == 0
    ensures Pad4(f + x) == f + Pad4(x)
  {
    var k := f / 4;
    assert f == 4 * k;
    assert (f + x + 3) / 4 == k + (x + 3) / 4;
  }

  /** Sums of multiples of 4 are multiples of 4. */
  lemma Aligned(a: nat, b: nat)
    requires a % 4 == 0 && b % 4 == 0
    ensures (a + b) % 4 == 0
  {
    assert a + b == 4 * (a / 4 + b / 4);
  }

  function Pow256(n: nat): (p: nat)
    ensures p > 0
  {
    if n == 0 then 1 else 256 * Pow256(n - 1)
  }

  lemma Pow256Widths()
    ensures Pow256(4) == TWO32 && Pow256(8) == TWO64
  {
  }

  /** The n-byte big-endian (network order) form of v, most significant byte first. */
  function ToBigEndian(v: nat, n: nat): (s: seq<byte>)
    ensures |s| == n
  {
    if n == 0 then [] else ToBigEndian(v / 256, n - 1) + [(v % 256) as byte]
  }

  /** The unsigned value of a big-endian byte sequence. */
  function FromBigEndian(s: seq<byte>): (v: nat)
    ensures v < Pow256(|s|)
  {
    if s == [] then 0
    else
      var high := FromBigEndian(s[..|s| - 1]);
      assert high <= Pow256(|s| - 1) - 1;
      assert high * 256 <= Pow256(|s|) - 256;
      high * 256 + s[|s| - 1] as int
  }

  /** Reading back what was written in big-endian order gives the value. */
  lemma {:induction false} FromToBigEndian(v: nat, n: nat)
    requires v < Pow256(n)
    ensures FromBigEndian(ToBigEndian(v, n)) == v
  {
    if n > 0 {
      var s := ToBigEndian(v, n);
      var high := v / 256;
      assert high < Pow256(n - 1) by {
        assert v < 256 * Pow256(n - 1);
      }
      assert s[..n - 1] == ToBigEndian(high, n - 1);
      assert s[n - 1] as int == v % 256;
      FromToBigEndian(high, n - 1);
      assert FromBigEndian(s) == high * 256 + v % 256;
    }
  }

  /** Writing back what was read in big-endian order gives the bytes. */
  lemma {:induction false} ToFromBigEndian(s: seq<byte>)
    ensures ToBigEndian(FromBigEndian(s), |s|) == s
  {
    if s != [] {
      var n := |s|;
      var v := FromBigEndian(s);
      var high := FromBigEndian(s[..n - 1]);
      assert v / 256 == high && v % 256 == s[n - 1] as int;
      ToFromBigEndian(s[..n - 1]);
      assert s == s[..n - 1] + [s[n - 1]];
    }
  }

  /** The 32-bit two's complement word that stores x. */
  function Int32ToWord(x: int32): (w: uint32)
    ensures w % TWO32 == x % TWO32
    ensures (x < 0) == (w >= TWO31)
  {
    if x < 0 then x + TWO32 else x
  }

  /** The signed value stored in a 32-bit two's complement word. */
  function WordToInt32(w: uint32): (x: int32)
    ensures Int32ToWord(x) == w
  {
    if w >= TWO31 then w - TWO32 else w
  }

  /** The 64-bit two's complement word that stores x. */
  function Int64ToWord(x: int64): (w: uint64)
    ensures w % TWO64 == x % TWO64
    ensures (x < 0) == (w >= TWO63)
  {
    if x < 0 then x + TWO64 else x
  }

  /** The signed value stored in a 64-bit two's complement word. */
  function WordToInt64(w: uint64): (x: int64)
    ensures Int64ToWord(x) == w
  {
    if w >= TWO63 then w - TWO64 else w
  }

  /** Two's complement storage loses nothing. */
  lemma SignedWordsRoundTrip(x: int32, y: int64)
    ensures WordToInt32(Int32ToWord(x)) == x
    ensures WordToInt64(Int64ToWord(y)) == y
  {
  }

  /** Index of the first NUL byte at or after i, or |b| when there is none. */
  function NulFrom(b: seq<byte>, i: nat): (k: nat)
    requires i <= |b|
    ensures i <= k <= |b|
    ensures forall j | i <= j < k :: b[j] != 0
    ensures k < |b| ==> b[k] == 0
    decreases |b| - i
  {
    if i == |b| || b[i] == 0 then i else NulFrom(b, i + 1)
  }

  /** Any k with NulFrom's two properties is NulFrom's answer. */
  lemma {:induction false} NulFromUnique(b: seq<byte>, i: nat, k: nat)
    requires i <= k <= |b|
    requires forall j | i <= j < k :: b[j] != 0
    requires k < |b| ==> b[k] == 0
    ensures NulFrom(b, i) == k
    decreases |b| - i
  {
    if i < k {
      NulFromUnique(b, i + 1, k);
    }
  }

  /** An OSC-string: the bytes, a NUL terminator, then NULs up to a multiple of 4. */
  function OscString(s: seq<byte>): (r: seq<byte>)
    ensures |r| == Pad4(|s| + 1) && |r| % 4 == 0
    ensures r[..|s|] == s && r[|s|] == 0
  {
    s + Zeros(Pad4(|s| + 1) - |s|)
  }

  /** Everything after the string's bytes is NUL. */
  lemma OscStringPadding(s: seq<byte>)
    ensures forall i | |s| <= i < |OscString(s)| :: OscString(s)[i] == 0
  {
  }

  /** An OSC-blob: a 4-byte big-endian length, the bytes, then NULs up to a multiple of 4. */
  function OscBlob(d: seq<byte>): (r: seq<byte>)
    requires |d| < TWO32
    ensures |r| == 4 + Pad4(|d|) && |r| % 4 == 0
    ensures FromBigEndian(r[..4]) == |d|
    ensures r[4..4 + |d|] == d
    ensures forall i | 4 + |d| <= i < |r| :: r[i] == 0
  {
    Pow256Widths();
    FromToBigEndian(|d|, 4);
    var r := ToBigEndian(|d|, 4) + d + Zeros(Pad4(|d|) - |d|);
    assert r[..4] == ToBigEndian(|d|, 4);
    r
  }

  /** A prefix one element longer. */
  lemma TakeOneMore<T>(s: seq<T>, k: nat)
    requires k < |s|
    ensures s[..k + 1] == s[..k] + [s[k]]
  {
  }

  /** A prefix followed by the next element is a longer prefix. */
  lemma PrefixGrows<T>(p: seq<T>, s: seq<T>, x: T)
    requires |p| < |s| && p == s[..|p|] && x == s[|p|]
    ensures p + [x] == s[..|p| + 1]
  {
  }

  /** A prefix as long as the whole is the whole. */
  lemma PrefixWhole<T>(p: seq<T>, s: seq<T>)
    requires |p| == |s| && p == s[..|p|]
    ensures p == s
  {
  }

  /** b holds the bytes x starting at position pos. */
  predicate At(b: seq<byte>, pos: nat, x: seq<byte>)
  {
    pos + |x| <= |b| && b[pos..pos + |x|] == x
  }

  /** What is placed between pre and post is at position |pre|. */
  lemma AtConcat(pre: seq<byte>, x: seq<byte>, post: seq<byte>)
    ensures At(pre + x + post, |pre|, x)
  {
    var b := pre + x + post;
    assert forall k | 0 <= k < |x| :: b[|pre|..|pre| + |x|][k] == x[k];
  }

  /** What starts a sequence is at position 0. */
  lemma AtPrefix(x: seq<byte>, post: seq<byte>)
    ensures At(x + post, 0, x)
  {
    assert (x + post)[..|x|] == x;
  }

  /** What is placed in b stays placed when more follows b. */
  lemma AtExtend(b: seq<byte>, pos: nat, x: seq<byte>, post: seq<byte>)
    requires At(b, pos, x)
    ensures At(b + post, pos, x)
  {
    assert (b + post)[pos..pos + |x|] == b[pos..pos + |x|];
  }

  /** What is placed in b moves along when pre comes before b. */
  lemma AtShift(pre: seq<byte>, b: seq<byte>, pos: nat, x: seq<byte>)
    requires At(b, pos, x)
    ensures At(pre + b, |pre| + pos, x)
  {
    assert (pre + b)[|pre| + pos..|pre| + pos + |x|] == b[pos..pos + |x|];
  }

  /** Two pieces placed together are each at their own position. */
  lemma AtSplit(b: seq<byte>, pos: nat, x: seq<byte>, y: seq<byte>)
    requires At(b, pos, x + y)
    ensures At(b, pos, x) && At(b, pos + |x|, y)
  {
    assert b[pos..pos + |x|] == (x + y)[..|x|];
    assert b[pos + |x|..pos + |x| + |y|] == (x + y)[|x|..];
  }

  /** A part of a placed piece is at its own position. */
  lemma AtPart(b: seq<byte>, pos: nat, x: seq<byte>, i: nat, j: nat)
    requires At(b, pos, x) && i <= j <= |x|
    ensures At(b, pos + i, x[i..j])
    ensures forall k | i <= k < j :: b[pos + k] == x[k]
  {
    forall k | i <= k < j ensures b[pos + k] == x[k] {
      assert b[pos + k] == b[pos..pos + |x|][k];
    }
    assert forall k | 0 <= k < j - i :: b[pos + i..pos + j][k] == x[i..j][k];
  }

  /** The first NUL after a C string s placed at position i is right after s. */
  lemma NulAfterCString(b: seq<byte>, i: nat, s: seq<byte>)
    requires NoNul(s)
    requires i + |s| < |b| && b[i..i + |s|] == s && b[i + |s|] == 0
    ensures NulFrom(b, i) == i + |s|
  {
    forall j | i <= j < i + |s| ensures b[j] != 0 {
      assert b[j] == b[i..i + |s|][j - i];
    }
    NulFromUnique(b, i, i + |s|);
  }
}

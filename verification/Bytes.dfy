/** Bytes, little endian integers and flattening of lists of byte strings. */
module Bytes {

  type byte = x: int | 0 <= x < 0x100

  const SPACE: byte := 0x20

  const MAX16 := 0x1_0000
  const MAX32 := 0x1_0000_0000

  function Max(a: int, b: int): (m: int)
    ensures m >= a && m >= b && (m == a || m == b)
  {
    if a < b then b else a
  }

  function Zeros(n: nat): (s: seq<byte>)
    ensures |s| == n
    ensures forall i :: 0 <= i < n ==> s[i] == 0
  {
    seq(n, _ => 0)
  }

  /** `base` with `src` written over it from index `at` on. */
  function Splice(base: seq<byte>, at: nat, src: seq<byte>): (r: seq<byte>)
    requires at + |src| <= |base|
    ensures |r| == |base|
    ensures forall i :: 0 <= i < |base| ==> r[i] == if at <= i < at + |src| then src[i - at] else base[i]
  {
    seq(|base|, i requires 0 <= i < |base| => if at <= i < at + |src| then src[i - at] else base[i])
  }

  lemma SpliceReads(base: seq<byte>, at: nat, src: seq<byte>)
    requires at + |src| <= |base|
    ensures Splice(base, at, src)[at..at + |src|] == src
    ensures Splice(base, at, src)[at + |src|..] == base[at + |src|..]
    ensures Splice(base, at, src)[..at] == base[..at]
  {
  }

  /** A uint16_t in the device's byte order; wider values lose their top, as the C++ narrowing does. */
  function LE16(n: nat): (s: seq<byte>)
    ensures |s| == 2
  {
    [n % 0x100, n / 0x100 % 0x100]
  }

  function LE32(n: nat): (s: seq<byte>)
    ensures |s| == 4
  {
    LE16(n % MAX16) + LE16(n / MAX16)
  }

  function LE64(n: nat): (s: seq<byte>)
    ensures |s| == 8
  {
    LE32(n % MAX32) + LE32(n / MAX32)
  }

  function FromLE16(s: seq<byte>): (n: nat)
    requires |s| == 2
    ensures n < MAX16
  {
    s[0] as int + 0x100 * s[1] as int
  }

  function FromLE32(s: seq<byte>): (n: nat)
    requires |s| == 4
    ensures n < MAX32
  {
    FromLE16(s[..2]) + MAX16 * FromLE16(s[2..])
  }

  function FromLE64(s: seq<byte>): nat
    requires |s| == 8
  {
    FromLE32(s[..4]) + MAX32 * FromLE32(s[4..])
  }

  lemma RoundTrip16(n: nat)
    ensures FromLE16(LE16(n)) == n % MAX16
  {
    assert n / 0x100 == 0x100 * (n / MAX16) + n % MAX16 / 0x100;
  }

  lemma RoundTrip32(n: nat)
    ensures FromLE32(LE32(n)) == n % MAX32
  {
    hide LE16, FromLE16;
    Words(LE16(n % MAX16), LE16(n / MAX16));
    RoundTrip16(n % MAX16);
    RoundTrip16(n / MAX16);
    WordsOf(n);
  }

  lemma Words(lo: seq<byte>, hi: seq<byte>)
    requires |lo| == 2 && |hi| == 2
    ensures FromLE32(lo + hi) == FromLE16(lo) + MAX16 * FromLE16(hi)
  {
    assert (lo + hi)[..2] == lo && (lo + hi)[2..] == hi;
  }

  lemma WordsOf(n: nat)
    ensures n % MAX16 % MAX16 + MAX16 * (n / MAX16 % MAX16) == n % MAX32
  {
  }

  lemma RoundTrip64(n: nat)
    requires n < MAX32 * MAX32
    ensures FromLE64(LE64(n)) == n
  {
    hide LE32, FromLE32;
    var lo, hi := n % MAX32, n / MAX32;
    RoundTrip32(lo);
    RoundTrip32(hi);
    Halves(LE32(lo), LE32(hi));
  }

  lemma Halves(lo: seq<byte>, hi: seq<byte>)
    requires |lo| == 4 && |hi| == 4
    ensures FromLE64(lo + hi) == FromLE32(lo) + MAX32 * FromLE32(hi)
  {
    assert (lo + hi)[..4] == lo && (lo + hi)[4..] == hi;
  }

  lemma DropSlice(b: seq<byte>, pos: nat, i: nat, j: nat)
    requires i <= j && pos + j <= |b|
    ensures b[pos..][i..j] == b[pos + i..pos + j]
  {
  }

  lemma SliceSlice(b: seq<byte>, lo: nat, hi: nat, i: nat, j: nat)
    requires i <= j && lo + j <= hi <= |b|
    ensures b[lo..hi][i..j] == b[lo + i..lo + j]
  {
    var s, t := b[lo..hi], b[lo + i..lo + j];
    forall k | 0 <= k < j - i ensures s[i..j][k] == t[k] {
    }
  }

  lemma SliceDrop(b: seq<byte>, lo: nat, hi: nat, i: nat)
    requires lo + i <= hi <= |b|
    ensures b[lo..hi][i..] == b[lo + i..hi]
  {
  }

  lemma DropDrop(b: seq<byte>, pos: nat, i: nat)
    requires pos + i <= |b|
    ensures b[pos..][i..] == b[pos + i..]
  {
  }

  lemma Assoc<T>(a: seq<T>, b: seq<T>, c: seq<T>)
    ensures (a + b) + c == a + (b + c)
  {
  }

  lemma SnocParts<T>(s: seq<T>, x: T)
    ensures s != [] ==> (s + [x])[0] == s[0] && (s + [x])[1..] == s[1..] + [x]
    ensures s == [] ==> s + [x] == [x] && (s + [x])[1..] == []
  {
  }

  /** The pieces one after the other. */
  function Flatten<T>(pieces: seq<seq<T>>): seq<T> {
    if pieces == [] then [] else pieces[0] + Flatten(pieces[1..])
  }

  lemma {:induction false} FlattenAppend<T>(a: seq<seq<T>>, b: seq<seq<T>>)
    ensures Flatten(a + b) == Flatten(a) + Flatten(b)
  {
    if a == [] {
      assert a + b == b;
    } else {
      var ab := a + b;
      assert ab[0] == a[0] && ab[1..] == a[1..] + b;
      FlattenAppend(a[1..], b);
      assert a[0] + (Flatten(a[1..]) + Flatten(b)) == (a[0] + Flatten(a[1..])) + Flatten(b);
    }
  }

  lemma FlattenSnoc<T>(a: seq<seq<T>>, last: seq<T>)
    ensures Flatten(a + [last]) == Flatten(a) + last
  {
    FlattenAppend(a, [last]);
    assert Flatten([last]) == last + Flatten<T>([]);
  }
}

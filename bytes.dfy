/** Bytes, big-endian integers and the Python sequence operations the reader relies on. */
module Bytes {

  /** One unsigned byte. */
  type Byte = x: int | 0 <= x < 256

  function Min(x: int, y: int): int { if x <= y then x else y }

  function Max(x: int, y: int): int { if x <= y then y else x }

  /** 256 to the power k: one more than the largest value k bytes can hold. */
  function Pow256(k: nat): (r: nat)
    ensures r >= 1
  {
    if k == 0 then 1 else 256 * Pow256(k - 1)
  }

  /** The unsigned value of a big-endian byte string (`int.from_bytes(s, 'big')`). */
  function BigEndian(s: seq<Byte>): (n: nat)
    ensures n < Pow256(|s|)
  {
    if s == [] then 0
    else
      var high := BigEndian(s[..|s| - 1]);
      assert high <= Pow256(|s| - 1) - 1;
      assert high * 256 <= (Pow256(|s| - 1) - 1) * 256;
      high * 256 + s[|s| - 1]
  }

  /** The k-byte big-endian form of n (`n.to_bytes(k, 'big')`, defined when n fits). */
  function ToBigEndian(n: nat, k: nat): (s: seq<Byte>)
    requires n < Pow256(k)
    ensures |s| == k
  {
    if k == 0 then []
    else ToBigEndian(n / 256, k - 1) + [n % 256]
  }

  /** Decoding the k-byte encoding of n gives n back. */
  lemma {:induction false} BigEndianOfToBigEndian(n: nat, k: nat)
    requires n < Pow256(k)
    ensures BigEndian(ToBigEndian(n, k)) == n
  {
    if k > 0 {
      var s := ToBigEndian(n, k);
      assert s[..k - 1] == ToBigEndian(n / 256, k - 1);
      BigEndianOfToBigEndian(n / 256, k - 1);
    }
  }

  /** Encoding the value of a byte string at its own width gives the string back. */
  lemma {:induction false} ToBigEndianOfBigEndian(s: seq<Byte>)
    ensures ToBigEndian(BigEndian(s), |s|) == s
  {
    if s != [] {
      var k := |s|;
      var high := BigEndian(s[..k - 1]);
      var n := BigEndian(s);
      assert n == high * 256 + s[k - 1];
      assert n / 256 == high && n % 256 == s[k - 1];
      ToBigEndianOfBigEndian(s[..k - 1]);
      assert s == s[..k - 1] + [s[k - 1]];
    }
  }

  /** Where a Python slice bound i falls in a sequence of length n: negative
      bounds count from the end, and every bound is clamped into [0, n]. */
  function SliceBound(i: int, n: nat): (r: nat)
    ensures r <= n
    ensures 0 <= i <= n ==> r == i
    ensures i < 0 && 0 <= n + i ==> r == n + i
  {
    if i < 0 then (if n + i < 0 then 0 else n + i)
    else if i > n then n
    else i
  }

  /** Python's `s[i:j]`: never fails, and is empty when the bounds cross. */
  function PySlice<T>(s: seq<T>, i: int, j: int): (r: seq<T>)
    // both bounds from the front, clamped to the end
    ensures 0 <= i <= j ==> r == s[Min(i, |s|)..Min(j, |s|)]
    // both bounds from the end, clamped to the front
    ensures i <= j < 0 ==> r == s[Max(0, |s| + i)..Max(0, |s| + j)]
    // start from the end, stop from the front
    ensures i < 0 <= j && |s| + i <= j ==> r == s[Max(0, |s| + i)..Min(j, |s|)]
    ensures i < 0 <= j && j < |s| + i ==> r == []
    // start from the front, stop from the end
    ensures 0 <= i && j < 0 && i <= |s| + j ==> r == s[i..|s| + j]
    ensures 0 <= i && j < 0 && |s| + j < i ==> r == []
    // bounds of the same sign that cross
    ensures j <= i && (i < 0 || 0 <= j) ==> r == []
  {
    var lo, hi := SliceBound(i, |s|), SliceBound(j, |s|);
    if lo < hi then s[lo..hi] else []
  }

  /** A non-empty sequence is its front followed by its last element. */
  lemma FrontLast<T>(s: seq<T>)
    requires s != []
    ensures s == s[..|s| - 1] + [s[|s| - 1]]
  {
  }

  /** Adjacent slices join into one. */
  lemma SliceJoin<T>(s: seq<T>, i: nat, j: nat, k: nat)
    requires i <= j <= k <= |s|
    ensures s[i..j] + s[j..k] == s[i..k]
  {
  }

  /** Appending the slice that follows a slice extends it. */
  lemma AppendSlice<T>(s: seq<T>, i: int, j: int, front: seq<T>, back: seq<T>)
    requires 0 <= i <= j && j + |back| <= |s|
    requires front == s[i..j] && back == s[j..j + |back|]
    ensures front + back == s[i..j + |back|]
  {
    SliceJoin(s, i, j, j + |back|);
  }

  /** Joining is associative. */
  lemma AppendAssoc<T>(a: seq<T>, b: seq<T>, c: seq<T>)
    ensures (a + b) + c == a + (b + c)
  {
  }

  /** A slice of the middle part of a join is a slice of that part. */
  lemma SliceOfMiddle<T>(a: seq<T>, b: seq<T>, c: seq<T>, i: nat, j: nat)
    requires i <= j <= |b|
    ensures (a + b + c)[|a| + i..|a| + j] == b[i..j]
  {
    assert forall k :: i <= k < j ==> (a + b + c)[|a| + k] == b[k];
  }

  /** The four parts of a four-part join, recovered by slicing. */
  lemma PartsOfJoin<T>(w: seq<T>, x: seq<T>, y: seq<T>, z: seq<T>)
    ensures var s := w + x + y + z;
      && s[..|w|] == w
      && s[|w|..|w| + |x|] == x
      && s[|w| + |x|..|w| + |x| + |y|] == y
      && s[|w| + |x| + |y|..] == z
  {
    var s := w + x + y + z;
    assert forall k :: 0 <= k < |x| ==> s[|w| + k] == x[k];
    assert forall k :: 0 <= k < |y| ==> s[|w| + |x| + k] == y[k];
    assert forall k :: 0 <= k < |z| ==> s[|w| + |x| + |y| + k] == z[k];
  }

  /** The pieces of a sequence of sequences joined in order. */
  function Concat<T>(pieces: seq<seq<T>>): seq<T>
  {
    if pieces == [] then [] else pieces[0] + Concat(pieces[1..])
  }

  /** Appending a piece appends its elements to the joined sequence. */
  lemma {:induction false} ConcatSnoc<T>(pieces: seq<seq<T>>, last: seq<T>)
    ensures Concat(pieces + [last]) == Concat(pieces) + last
  {
    if pieces != [] {
      assert (pieces + [last])[1..] == pieces[1..] + [last];
      ConcatSnoc(pieces[1..], last);
    }
  }
}

/** Bytes and the 4-byte big-endian integers used by PNG length and CRC fields. */
module Bytes {

  type byte = x: int | 0 <= x < 0x100

  /** Python's `min`, used where a slice end is clamped to the buffer length. */
  function Min(a: int, b: int): (r: int)
    ensures r <= a && r <= b && (r == a || r == b)
  {
    if a <= b then a else b
  }

  /** `struct.unpack('>I', s)`: the unsigned 32-bit big-endian value of four bytes. */
  function FromBe32(s: seq<byte>): (n: nat)
    requires |s| == 4
    ensures n < 0x1_0000_0000
  {
    (s[0] as int) * 0x100_0000 + (s[1] as int) * 0x1_0000 + (s[2] as int) * 0x100 + s[3] as int
  }

  /** `struct.pack('>I', n)`: four bytes, most significant first. */
  function Be32(n: nat): (r: seq<byte>)
    requires n < 0x1_0000_0000
    ensures |r| == 4 && FromBe32(r) == n
  {
    var q1 := n / 0x100;
    var q2 := q1 / 0x100;
    var q3 := q2 / 0x100;
    Be32Digits(n, q1, q2, q3);
    [q3, q2 % 0x100, q1 % 0x100, n % 0x100]
  }

  /** Base-256 digits of a 32-bit value, taken off one at a time. */
  lemma Be32Digits(n: nat, q1: nat, q2: nat, q3: nat)
    requires n < 0x1_0000_0000 && q1 == n / 0x100 && q2 == q1 / 0x100 && q3 == q2 / 0x100
    ensures q3 < 0x100
    ensures n == q3 * 0x100_0000 + (q2 % 0x100) * 0x1_0000 + (q1 % 0x100) * 0x100 + n % 0x100
  {
    assert n == q1 * 0x100 + n % 0x100;
    assert q1 == q2 * 0x100 + q1 % 0x100;
    assert q2 == q3 * 0x100 + q2 % 0x100;
  }
}

/** Facts about slices that the chunk proofs use at every step. */
module Slices {

  /** A run found at offset `i` of `data` lends its own slices to `data`. */
  lemma SliceWithin<T>(data: seq<T>, i: nat, e: seq<T>, a: nat, b: nat)
    requires i + |e| <= |data| && data[i..i + |e|] == e
    requires a <= b <= |e|
    ensures data[i + a..i + b] == e[a..b]
  {
    forall k | 0 <= k < b - a
      ensures data[i + a..i + b][k] == e[a..b][k]
    {
      assert data[i + a + k] == data[i..i + |e|][a + k];
    }
  }

  /** Concatenation is associative; proved here, away from any chunk facts, and called where needed. */
  lemma Assoc<T>(a: seq<T>, b: seq<T>, c: seq<T>)
    ensures a + (b + c) == (a + b) + c
  {
  }

  /** Cutting a concatenation where its first part ends gives back the two parts. */
  lemma SplitAt<T>(a: seq<T>, b: seq<T>)
    ensures (a + b)[..|a|] == a && (a + b)[|a|..] == b
  {
  }

  /** A run found in `data` that is the concatenation of two parts holds each part in turn. */
  lemma PartsWithin<T>(data: seq<T>, i: nat, a: seq<T>, b: seq<T>, j: nat)
    requires j == i + |a| + |b| <= |data| && data[i..j] == a + b
    ensures data[i..i + |a|] == a && data[i + |a|..j] == b
  {
    SliceWithin(data, i, a + b, 0, |a|);
    SliceWithin(data, i, a + b, |a|, |a| + |b|);
    SplitAt(a, b);
  }

  /** The same, with the offset where the first part ends given. */
  lemma PartsAt<T>(data: seq<T>, i: nat, a: seq<T>, b: seq<T>, m: nat, j: nat)
    requires m == i + |a| && j == m + |b| <= |data| && data[i..j] == a + b
    ensures data[i..m] == a && data[m..j] == b
  {
    PartsWithin(data, i, a, b, j);
  }

  /** The four parts of a four-part concatenation, cut back out of it. */
  lemma Fields<T>(a: seq<T>, b: seq<T>, c: seq<T>, d: seq<T>)
    ensures var r := a + b + c + d;
      r[..|a|] == a && r[|a|..|a| + |b|] == b && r[|a| + |b|..|a| + |b| + |c|] == c
      && r[|a| + |b| + |c|..] == d
  {
    var r := a + b + c + d;
    assert r == a + (b + (c + d));
    SplitAt(a, b + (c + d));
    SplitAt(b, c + d);
    SplitAt(c, d);
    SliceWithin(r, |a|, b + (c + d), 0, |b|);
    SliceWithin(r, |a|, b + (c + d), |b|, |b| + |c|);
    SliceWithin(r, |a|, b + (c + d), |b| + |c|, |b| + |c| + |d|);
  }

  /** Two equal runs, at offset `i` of `x` and at offset `k` of `y`, have equal slices. */
  lemma SameSlices<T>(x: seq<T>, i: nat, y: seq<T>, k: nat, n: nat, a: nat, b: nat)
    requires i + n <= |x| && k + n <= |y| && x[i..i + n] == y[k..k + n]
    requires a <= b <= n
    ensures x[i + a..i + b] == y[k + a..k + b]
  {
    SliceWithin(x, i, y[k..k + n], a, b);
    SliceWithin(y, k, y[k..k + n], a, b);
  }
}

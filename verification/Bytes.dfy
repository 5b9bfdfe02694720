/** Byte sequences and the one update used throughout: replacing a slice in place. */
module Bytes {

  type byte = b: int | 0 <= b < 256

  const UINT16_LIMIT: nat := 0x1_0000
  const UINT32_LIMIT: nat := 0x1_0000_0000
  const UINTN_LIMIT: nat := 0x1_0000_0000_0000_0000

  type UINT16 = n: nat | n < UINT16_LIMIT
  type UINT32 = n: nat | n < UINT32_LIMIT

  /** `s` with `data` written at offset `off`: the effect of CopyMem into a buffer. */
  function Splice<T>(s: seq<T>, off: nat, data: seq<T>): (r: seq<T>)
    requires off + |data| <= |s|
    ensures |r| == |s|
  {
    seq(|s|, i requires 0 <= i < |s| => if off <= i < off + |data| then data[i - off] else s[i])
  }

  /** Read-over-write: the written slice reads back, and every other index is untouched. */
  lemma {:induction false} SpliceAt<T>(s: seq<T>, off: nat, data: seq<T>)
    requires off + |data| <= |s|
    ensures Splice(s, off, data)[off..off + |data|] == data
    ensures forall i :: 0 <= i < |s| && !(off <= i < off + |data|) ==> Splice(s, off, data)[i] == s[i]
    ensures forall i :: off <= i < off + |data| ==> Splice(s, off, data)[i] == data[i - off]
  {
  }

  /** A slice that does not meet the written range is unchanged. */
  lemma {:induction false} SpliceElsewhere<T>(s: seq<T>, off: nat, data: seq<T>, lo: nat, hi: nat)
    requires off + |data| <= |s|
    requires lo <= hi <= |s|
    requires hi <= off || off + |data| <= lo
    ensures Splice(s, off, data)[lo..hi] == s[lo..hi]
  {
  }

  /** Writing inside the window [lo, hi) is writing into the window. */
  lemma {:induction false} SpliceWindow<T>(s: seq<T>, off: nat, data: seq<T>, lo: nat, hi: nat)
    requires lo <= off && off + |data| <= hi <= |s|
    ensures Splice(s, off, data)[lo..hi] == Splice(s[lo..hi], off - lo, data)
  {
  }

  /** Two adjacent writes are one write. */
  lemma {:induction false} SpliceAdjacent<T>(s: seq<T>, off: nat, a: seq<T>, b: seq<T>)
    requires off + |a| + |b| <= |s|
    ensures Splice(Splice(s, off, a), off + |a|, b) == Splice(s, off, a + b)
  {
  }

  /** Writing nothing changes nothing. */
  lemma {:induction false} SpliceNothing<T>(s: seq<T>, off: nat)
    requires off <= |s|
    ensures Splice(s, off, []) == s
  {
  }

  /** Writing back what is already there changes nothing. */
  lemma {:induction false} SpliceSame<T>(s: seq<T>, off: nat, data: seq<T>)
    requires off + |data| <= |s| && s[off..off + |data|] == data
    ensures Splice(s, off, data) == s
  {
  }

  lemma {:induction false} SpliceWhole<T>(s: seq<T>, data: seq<T>)
    requires |s| == |data|
    ensures Splice(s, 0, data) == data
  {
  }

  /** A slice of a slice is a slice. */
  lemma {:induction false} SliceOfSlice<T>(s: seq<T>, lo: nat, hi: nat, off: nat, n: nat)
    requires lo <= hi <= |s| && off + n <= hi - lo
    ensures s[lo..hi][off..off + n] == s[lo + off..lo + off + n]
  {
    var a, b := s[lo..hi][off..off + n], s[lo + off..lo + off + n];
    assert forall i :: 0 <= i < n ==> a[i] == s[lo + off + i] == b[i];
  }

  lemma {:induction false} SliceExtend<T>(s: seq<T>, off: nat, k: nat, m: nat)
    requires off + k + m <= |s|
    ensures s[off..off + k] + s[off + k..off + k + m] == s[off..off + k + m]
  {
  }

  /** One read or write of |buffer| bytes at `pos` of a flat byte array. */
  ghost predicate Accessed<T>(write: bool, before: seq<T>, after: seq<T>, pos: nat, buffer: seq<T>, result: seq<T>)
  {
    && pos + |buffer| <= |before|
    && if write then result == buffer && after == Splice(before, pos, buffer)
       else after == before && result == before[pos..pos + |buffer|]
  }

  lemma {:induction false} AccessedNothing<T>(write: bool, s: seq<T>, pos: nat)
    requires pos <= |s|
    ensures Accessed(write, s, s, pos, [], [])
  {
    SpliceNothing(s, pos);
  }

  /** An access of the first `k` bytes and one of the rest, where the first ended, are one access. */
  lemma {:induction false} AccessedInTwo<T>(write: bool, s: seq<T>, s1: seq<T>, s2: seq<T>, pos: nat, buffer: seq<T>, k: nat, r1: seq<T>, r2: seq<T>)
    requires k <= |buffer|
    requires Accessed(write, s, s1, pos, buffer[..k], r1) && Accessed(write, s1, s2, pos + k, buffer[k..], r2)
    ensures Accessed(write, s, s2, pos, buffer, r1 + r2)
  {
    assert buffer == buffer[..k] + buffer[k..];
    if write { SpliceAdjacent(s, pos, buffer[..k], buffer[k..]); } else { SliceExtend(s, pos, k, |buffer| - k); }
  }

  /** Division with remainder is unique. */
  lemma {:induction false} QuotientIsUnique(m: nat, q: nat, r: nat)
    requires r < m
    ensures (q * m + r) / m == q && (q * m + r) % m == r
  {
    var pos := q * m + r;
    var d := pos / m;
    assert pos == d * m + pos % m;
    assert (q - d) * m == pos % m - r;
    assert q - d >= 1 ==> (q - d) * m >= m;
    assert d - q >= 1 ==> (d - q) * m >= m;
  }

  lemma {:induction false} MulOrder(k: nat, m: nat, c: nat)
    requires k <= m
    ensures k * c <= m * c
  {
    assert m * c - k * c == (m - k) * c;
  }

  // ----- bytes as numbers

  function Pow2(a: nat): (r: nat)
    ensures r > 0
  {
    if a == 0 then 1 else 2 * Pow2(a - 1)
  }

  lemma {:induction false} Pow2Sum(a: nat, b: nat)
    ensures Pow2(a + b) == Pow2(a) * Pow2(b)
    decreases a
  {
    if a > 0 {
      Pow2Sum(a - 1, b);
      Doubled(Pow2(a - 1), Pow2(b));
    }
  }

  lemma {:induction false} Doubled(x: nat, y: nat)
    ensures 2 * (x * y) == (2 * x) * y
  {
  }

  lemma {:induction false} Pow2Small()
    ensures Pow2(4) == 16 && Pow2(8) == 256 && Pow2(12) == 0x1000 && Pow2(16) == 0x1_0000 && Pow2(28) == 0x1000_0000 && Pow2(32) == 0x1_0000_0000
  {
    assert Pow2(4) == 16;
    Pow2Sum(4, 4);
    Pow2Sum(8, 4);
    Pow2Sum(8, 8);
    Pow2Sum(16, 12);
    Pow2Sum(16, 16);
  }

  /** The number a byte sequence stands for, least significant byte first. */
  function LittleEndian(s: seq<byte>): nat {
    if s == [] then 0 else (s[0] as nat) + 256 * LittleEndian(s[1..])
  }

  /** The number a byte sequence stands for, most significant byte first. */
  function BigEndian(s: seq<byte>): nat {
    if s == [] then 0 else 256 * BigEndian(s[..|s| - 1]) + (s[|s| - 1] as nat)
  }

  lemma {:induction false} LittleEndianSplit(s: seq<byte>, n: nat)
    requires n <= |s|
    ensures LittleEndian(s) == LittleEndian(s[n..]) * Pow2(8 * n) + LittleEndian(s[..n]) && LittleEndian(s[..n]) < Pow2(8 * n)
    decreases n
  {
    if n == 0 {
      assert s[0..] == s && s[..0] == [];
    } else {
      LittleEndianSplit(s[1..], n - 1);
      Pow2Small();
      Pow2Sum(8, 8 * (n - 1));
      assert 8 + 8 * (n - 1) == 8 * n;
      assert s[1..][n - 1..] == s[n..] && s[..n][1..] == s[1..][..n - 1] && s[..n][0] == s[0];
      var high, low, m := LittleEndian(s[n..]), LittleEndian(s[1..][..n - 1]), Pow2(8 * (n - 1));
      assert LittleEndian(s) == (s[0] as nat) + 256 * LittleEndian(s[1..]) && LittleEndian(s[..n]) == (s[0] as nat) + 256 * low;
      hide LittleEndian, Pow2;
      ByteBelow(s[0], high, low, m);
    }
  }

  lemma {:induction false} ByteBelow(b: byte, high: nat, low: nat, m: nat)
    requires low < m
    ensures (b as int) + 256 * (high * m + low) == high * (256 * m) + ((b as int) + 256 * low) && (b as int) + 256 * low < 256 * m
  {
    assert 256 * (high * m) == high * (256 * m);
  }

  /** Dividing by a power of 256 drops bytes, the remainder keeps them. */
  lemma {:induction false} LittleEndianCut(s: seq<byte>, n: nat)
    requires n <= |s|
    ensures LittleEndian(s) / Pow2(8 * n) == LittleEndian(s[n..]) && LittleEndian(s) % Pow2(8 * n) == LittleEndian(s[..n])
  {
    LittleEndianSplit(s, n);
    QuotientIsUnique(Pow2(8 * n), LittleEndian(s[n..]), LittleEndian(s[..n]));
  }

  lemma {:induction false} QuotientOfProduct(x: nat, m: nat, n: nat)
    requires m > 0 && n > 0
    ensures m * n > 0 && x / (m * n) == x / m / n
  {
    var q := x / m;
    assert x == q * m + x % m && q == q / n * n + q % n;
    MulOrder(q % n + 1, n, m);
    assert (q % n + 1) * m == q % n * m + m;
    var r := q % n * m + x % m;
    assert q / n * n * m == q / n * (m * n);
    assert (q / n * n + q % n) * m == q / n * n * m + q % n * m;
    assert x == q / n * (m * n) + r && n * m == m * n;
    QuotientIsUnique(m * n, q / n, r);
  }
}

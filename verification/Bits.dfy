/** Bitmaps as sets of numbers, and how many bits of a stretch are clear. */
module Bits {

  /** The number of clear bits in [lo, hi). */
  function ClearIn(bits: set<nat>, lo: nat, hi: nat): nat
    decreases hi
  {
    if hi <= lo then 0 else ClearIn(bits, lo, hi - 1) + if hi - 1 in bits then 0 else 1
  }

  /** ext2fs_bitcount on a stretch of a bitmap: the number of set bits in [lo, hi). */
  function SetIn(bits: set<nat>, lo: nat, hi: nat): nat
    decreases hi
  {
    if hi <= lo then 0 else SetIn(bits, lo, hi - 1) + if hi - 1 in bits then 1 else 0
  }

  predicate SameBits(a: set<nat>, b: set<nat>, lo: nat, hi: nat)
  {
    forall x :: lo <= x < hi ==> (x in a <==> x in b)
  }

  predicate AllClear(bits: set<nat>, lo: nat, hi: nat)
  {
    forall x :: lo <= x < hi ==> x !in bits
  }

  lemma {:induction false} SameBitsJoin(a: set<nat>, b: set<nat>, lo: nat, mid: nat, hi: nat)
    requires lo <= mid <= hi
    ensures SameBits(a, b, lo, hi) <==> SameBits(a, b, lo, mid) && SameBits(a, b, mid, hi)
  {
  }

  lemma {:induction false} SetAndClear(bits: set<nat>, lo: nat, hi: nat)
    requires lo <= hi
    ensures SetIn(bits, lo, hi) + ClearIn(bits, lo, hi) == hi - lo
    decreases hi
  {
    if lo < hi {
      SetAndClear(bits, lo, hi - 1);
    }
  }

  lemma {:induction false} ClearSplit(bits: set<nat>, lo: nat, mid: nat, hi: nat)
    requires lo <= mid <= hi
    ensures ClearIn(bits, lo, hi) == ClearIn(bits, lo, mid) + ClearIn(bits, mid, hi)
    decreases hi
  {
    if mid < hi {
      ClearSplit(bits, lo, mid, hi - 1);
    }
  }

  lemma {:induction false} SameCounts(a: set<nat>, b: set<nat>, lo: nat, hi: nat)
    requires SameBits(a, b, lo, hi)
    ensures ClearIn(a, lo, hi) == ClearIn(b, lo, hi) && SetIn(a, lo, hi) == SetIn(b, lo, hi)
    decreases hi
  {
    if lo < hi {
      SameCounts(a, b, lo, hi - 1);
    }
  }

  /** Where the bits of group `g` begin, when each group has `per` bits. */
  function GroupStart(first: nat, per: nat, g: nat): nat
  {
    first + g * per
  }

  function Min(a: nat, b: nat): nat { if a < b then a else b }

  /** The clear bits of group `g` in a bitmap that ends before `end`. */
  function ClearInGroup(bits: set<nat>, first: nat, per: nat, end: nat, g: nat): nat
  {
    ClearIn(bits, GroupStart(first, per, g), Min(GroupStart(first, per, g + 1), end))
  }

  predicate Distinct<T(==)>(s: seq<T>)
  {
    forall i, j :: 0 <= i < j < |s| ==> s[i] != s[j]
  }

  /** A sequence without repetition of members of a set is no longer than the set is large. */
  lemma {:induction false} DistinctFits<T>(s: seq<T>, keys: set<T>)
    requires Distinct(s) && forall x :: x in s ==> x in keys
    ensures |s| <= |keys|
    decreases |s|
  {
    if s != [] {
      DistinctFits(s[1..], keys - {s[0]});
    }
  }

  /** More numbers below `n` than `n` repeat one of them. */
  lemma {:induction false} Pigeonhole(s: seq<nat>, n: nat)
    requires |s| > n && forall i :: 0 <= i < |s| ==> s[i] < n
    ensures !Distinct(s)
  {
    if Distinct(s) {
      DistinctFits(s, Below(n));
    }
  }

  ghost function Below(n: nat): (s: set<nat>)
    ensures |s| == n && forall x: nat :: x in s <==> x < n
  {
    if n == 0 then {} else Below(n - 1) + {n - 1}
  }

  function Sum(s: seq<nat>): nat
  {
    if s == [] then 0 else Sum(s[..|s| - 1]) + s[|s| - 1]
  }

  lemma {:induction false} NextGroup(first: nat, per: nat, g: nat)
    ensures GroupStart(first, per, g + 1) == GroupStart(first, per, g) + per
  {
  }

  lemma {:induction false} InGroup(first: nat, per: nat, g: nat, k: nat)
    requires k < per
    ensures (GroupStart(first, per, g) + k - first) % per == k
  {
    ModOfGroup(g, per, k);
  }

  lemma {:induction false} ModOfGroup(g: nat, per: nat, k: nat)
    requires k < per
    ensures (g * per + k) % per == k
    decreases g
  {
    if g > 0 {
      ModOfGroup(g - 1, per, k);
      var x := (g - 1) * per + k;
      assert g * per + k == x + per;
      ModPlus(x, per);
    }
  }

  lemma {:induction false} ModPlus(x: nat, per: nat)
    requires per > 0
    ensures (x + per) % per == x % per
  {
    var q, r := x / per, x % per;
    assert x + per == (q + 1) * per + r;
    QuotientUnique(x + per, per, q + 1, r);
  }

  lemma {:induction false} QuotientUnique(x: nat, d: nat, q: nat, r: nat)
    requires d > 0 && x == q * d + r && r < d
    ensures x / d == q && x % d == r
  {
    SameQuotient(d, q, r, x / d, x % d);
  }

  lemma {:induction false} SameQuotient(d: nat, q: nat, r: nat, q': nat, r': nat)
    requires r < d && r' < d && q * d + r == q' * d + r'
    ensures q == q' && r == r'
  {
    if q < q' {
      assert q' * d == q * d + (q' - q) * d;
      AtLeastOne(q' - q, d);
      assert false;
    }
    if q' < q {
      assert q * d == q' * d + (q - q') * d;
      AtLeastOne(q - q', d);
      assert false;
    }
  }

  lemma {:induction false} AtLeastOne(k: nat, d: nat)
    requires k >= 1
    ensures k * d >= d
  {
    assert k * d == d + (k - 1) * d;
  }
}

/**
  The allocator of address ranges that e2fsck uses to find overlapping extended attributes: a
  linked list of disjoint, non-touching ranges with a pointer to its last element.
 */
module Region {

  datatype Range = Range(lo: nat, hi: nat)

  // ---------------------------------------------------------------- lists of ranges

  ghost predicate Covers(rs: seq<Range>, x: int)
  {
    exists i :: 0 <= i < |rs| && rs[i].lo <= x < rs[i].hi
  }

  /** Ranges are non-empty, ascending, and never touch. */
  ghost predicate Gapped(rs: seq<Range>)
  {
    && (forall i :: 0 <= i < |rs| ==> rs[i].lo < rs[i].hi)
    && (forall i, j :: 0 <= i < j < |rs| ==> rs[i].hi < rs[j].lo)
  }

  ghost predicate Within(rs: seq<Range>, min: nat, max: nat)
  {
    forall i :: 0 <= i < |rs| ==> min <= rs[i].lo && rs[i].hi <= max
  }

  ghost predicate Free(rs: seq<Range>, lo: nat, hi: nat)
  {
    forall x :: lo <= x < hi ==> !Covers(rs, x)
  }

  /** `ts` covers what `rs` covers and the range [lo, hi) besides. */
  ghost predicate Adds(rs: seq<Range>, ts: seq<Range>, lo: nat, hi: nat)
  {
    forall x :: Covers(ts, x) <==> Covers(rs, x) || lo <= x < hi
  }

  /** All ranges before `k` end before `lo`, and all from `k` on begin after `hi`. */
  ghost predicate Splits(rs: seq<Range>, k: nat, lo: nat, hi: nat)
  {
    && k <= |rs|
    && (forall i :: 0 <= i < k ==> rs[i].hi < lo)
    && (forall i :: k <= i < |rs| ==> hi < rs[i].lo)
  }

  lemma {:induction false} Overlapping(rs: seq<Range>, k: nat, lo: nat, hi: nat)
    requires k < |rs| && Gapped(rs) && lo < hi && lo < rs[k].hi && rs[k].lo < hi
    ensures !Free(rs, lo, hi)
  {
    var x := if lo < rs[k].lo then rs[k].lo else lo;
    assert rs[k].lo <= x < rs[k].hi;
    assert Covers(rs, x);
  }

  lemma {:induction false} SplitsAt(rs: seq<Range>, k: nat, lo: nat, hi: nat)
    requires Gapped(rs) && k <= |rs| && (forall i :: 0 <= i < k ==> rs[i].hi < lo) && (k < |rs| ==> hi < rs[k].lo)
    ensures Splits(rs, k, lo, hi)
  {
    forall i | k <= i < |rs| ensures hi < rs[i].lo {
      assert rs[k].lo <= rs[i].lo;
    }
  }

  lemma {:induction false} FreeBetween(rs: seq<Range>, k: nat, lo: nat, hi: nat)
    requires k <= |rs|
    requires forall i :: 0 <= i < k ==> rs[i].hi <= lo
    requires forall i :: k <= i < |rs| ==> hi <= rs[i].lo
    ensures Free(rs, lo, hi)
  {
  }

  lemma {:induction false} CoversJoin(a: seq<Range>, b: seq<Range>, x: int)
    ensures Covers(a + b, x) <==> Covers(a, x) || Covers(b, x)
  {
    if Covers(a, x) {
      var i :| 0 <= i < |a| && a[i].lo <= x < a[i].hi;
      assert (a + b)[i] == a[i];
    }
    if Covers(b, x) {
      var i :| 0 <= i < |b| && b[i].lo <= x < b[i].hi;
      assert (a + b)[|a| + i] == b[i];
    }
  }

  /** Replacing a stretch of the list by ranges that cover more adds just that much. */
  lemma {:induction false} Replaced(a: seq<Range>, m: seq<Range>, m': seq<Range>, b: seq<Range>, lo: nat, hi: nat)
    requires Adds(m, m', lo, hi)
    ensures Adds(a + m + b, a + m' + b, lo, hi)
  {
    forall x ensures Covers(a + m' + b, x) <==> Covers(a + m + b, x) || lo <= x < hi {
      CoversJoin(a + m, b, x);
      CoversJoin(a, m, x);
      CoversJoin(a + m', b, x);
      CoversJoin(a, m', x);
      assert Covers(m', x) <==> Covers(m, x) || lo <= x < hi;
    }
  }

  /** The three parts of a list stay in order when the middle is replaced by one range that
      leaves a gap on both sides. */
  lemma {:induction false} OneInTheMiddle(a: seq<Range>, m: seq<Range>, r: Range, b: seq<Range>)
    requires Gapped(a + m + b) && r.lo < r.hi
    requires forall i :: 0 <= i < |a| ==> a[i].hi < r.lo
    requires forall i :: 0 <= i < |b| ==> r.hi < b[i].lo
    ensures Gapped(a + [r] + b)
  {
    var rs, ts := a + m + b, a + [r] + b;
    forall i, j | 0 <= i < j < |ts| ensures ts[i].hi < ts[j].lo {
      var i', j' := if i < |a| then i else i - 1 + |m|, if j < |a| then j else j - 1 + |m|;
      if i != |a| && j != |a| {
        assert ts[i] == rs[i'] && ts[j] == rs[j'];
      }
    }
    forall i | 0 <= i < |ts| ensures ts[i].lo < ts[i].hi {
      if i != |a| {
        assert ts[i] == rs[if i < |a| then i else i - 1 + |m|];
      }
    }
  }

  /** Range `k` may be replaced by one that also takes in the new addresses next to it. */
  lemma {:induction false} Grown(rs: seq<Range>, k: nat, r: Range, lo: nat, hi: nat)
    requires k < |rs| && Gapped(rs) && lo < hi
    requires (r == Range(rs[k].lo, hi) && lo == rs[k].hi) || (r == Range(lo, rs[k].hi) && hi == rs[k].lo)
    requires forall i :: 0 <= i < k ==> rs[i].hi < r.lo
    requires forall i :: k < i < |rs| ==> r.hi < rs[i].lo
    ensures Gapped(rs[k := r]) && Adds(rs, rs[k := r], lo, hi)
  {
    var a, b := rs[..k], rs[k + 1..];
    assert rs == a + [rs[k]] + b && rs[k := r] == a + [r] + b;
    OneCovers(rs[k]);
    OneCovers(r);
    Replaced(a, [rs[k]], [r], b, lo, hi);
    OneInTheMiddle(a, [rs[k]], r, b);
  }

  lemma {:induction false} OneCovers(r: Range)
    ensures forall x :: Covers([r], x) <==> r.lo <= x < r.hi
  {
    forall x ensures Covers([r], x) <==> r.lo <= x < r.hi {
      assert [r][0] == r;
    }
  }

  ghost function Merged(rs: seq<Range>, k: nat): seq<Range>
    requires k + 1 < |rs|
  {
    rs[..k] + [Range(rs[k].lo, rs[k + 1].hi)] + rs[k + 2..]
  }

  /** A new range that fills the gap between two neighbours makes them one. */
  lemma {:induction false} GapFilled(rs: seq<Range>, k: nat)
    requires k + 1 < |rs| && Gapped(rs)
    ensures Gapped(Merged(rs, k)) && Adds(rs, Merged(rs, k), rs[k].hi, rs[k + 1].lo)
  {
    var a, b, r := rs[..k], rs[k + 2..], Range(rs[k].lo, rs[k + 1].hi);
    var m := [rs[k]] + [rs[k + 1]];
    assert rs == a + m + b;
    forall x ensures Covers([r], x) <==> Covers(m, x) || rs[k].hi <= x < rs[k + 1].lo {
      OneCovers(r);
      OneCovers(rs[k]);
      OneCovers(rs[k + 1]);
      CoversJoin([rs[k]], [rs[k + 1]], x);
    }
    Replaced(a, m, [r], b, rs[k].hi, rs[k + 1].lo);
    OneInTheMiddle(a, m, r, b);
  }

  ghost function WithNew(rs: seq<Range>, k: nat, r: Range): seq<Range>
    requires k <= |rs|
  {
    rs[..k] + [r] + rs[k..]
  }

  lemma {:induction false} NewRange(rs: seq<Range>, k: nat, lo: nat, hi: nat)
    requires Gapped(rs) && Splits(rs, k, lo, hi) && lo < hi
    ensures Gapped(WithNew(rs, k, Range(lo, hi))) && Adds(rs, WithNew(rs, k, Range(lo, hi)), lo, hi)
  {
    var a, b, r := rs[..k], rs[k..], Range(lo, hi);
    assert rs == a + [] + b;
    OneCovers(r);
    Replaced(a, [], [r], b, lo, hi);
    OneInTheMiddle(a, [], r, b);
  }

  lemma {:induction false} MergedWithin(rs: seq<Range>, k: nat, min: nat, max: nat)
    requires k + 1 < |rs| && Within(rs, min, max)
    ensures Within(Merged(rs, k), min, max)
  {
  }

  lemma {:induction false} NewWithin(rs: seq<Range>, k: nat, r: Range, min: nat, max: nat)
    requires k <= |rs| && Within(rs, min, max) && min <= r.lo && r.hi <= max
    ensures Within(WithNew(rs, k, r), min, max)
  {
  }

  // ---------------------------------------------------------------- the linked list

  /** Where the walk stops: on a conflict, just below range k, just between ranges k and k + 1,
      just above range k, or apart from every range, before range k. */
  datatype Place = Clash | Below | Bridge | Above | Apart

  ghost predicate Fits(rs: seq<Range>, p: Place, k: nat, lo: nat, hi: nat)
  {
    && k <= |rs|
    && match p
       case Clash => !Free(rs, lo, hi)
       case Below => k < |rs| && hi == rs[k].lo && forall i :: 0 <= i < k ==> rs[i].hi < lo
       case Bridge => k + 1 < |rs| && lo == rs[k].hi && hi == rs[k + 1].lo
       case Above => k < |rs| && lo == rs[k].hi && forall i :: k < i < |rs| ==> hi < rs[i].lo
       case Apart => Splits(rs, k, lo, hi)
  }

  lemma {:induction false} FitsMeansFree(rs: seq<Range>, p: Place, k: nat, lo: nat, hi: nat)
    requires Gapped(rs) && Fits(rs, p, k, lo, hi)
    ensures p.Clash? <==> !Free(rs, lo, hi)
  {
    match p
    case Clash =>
    case Below => FreeBetween(rs, k, lo, hi);
    case Bridge => FreeBetween(rs, k + 1, lo, hi);
    case Above => FreeBetween(rs, k + 1, lo, hi);
    case Apart => FreeBetween(rs, k, lo, hi);
  }

  class RegionEl {
    var start: nat
    var end: nat
    var next: RegionEl?

    constructor (start: nat, end: nat, next: RegionEl?)
      ensures this.start == start && this.end == end && this.next == next
    {
      this.start, this.end, this.next := start, end, next;
    }
  }

  datatype Outcome = OutOfBounds | Conflict | Done   // -1, 1 and 0

  function NextIn(ns: seq<RegionEl>, i: nat): RegionEl?
  {
    if i + 1 < |ns| then ns[i + 1] else null
  }

  class RegionList {
    const min: nat
    const max: nat
    var head: RegionEl?    // `allocated` in the source
    var last: RegionEl?
    ghost var nodes: seq<RegionEl>
    ghost var ranges: seq<Range>   // what the nodes hold
    ghost var repr: set<object>    // every element the list has ever had

    ghost predicate Linked()
      reads this`head, this`last, this`nodes, nodes`next
    {
      && head == (if nodes == [] then null else nodes[0])
      && last == (if nodes == [] then null else nodes[|nodes| - 1])
      && (forall i {:trigger nodes[i].next} :: 0 <= i < |nodes| ==> nodes[i].next == NextIn(nodes, i))
    }

    ghost predicate Holds()
      reads this`nodes, this`ranges, nodes`start, nodes`end
    {
      && |ranges| == |nodes|
      && (forall i :: 0 <= i < |nodes| ==> ranges[i] == Range(nodes[i].start, nodes[i].end))
    }

    ghost predicate Valid()
      reads this, nodes
    {
      Linked() && Holds() && Gapped(ranges) && Within(ranges, min, max)
    }

    ghost predicate Ready()
      reads this, nodes
    {
      Valid() && forall i :: 0 <= i < |nodes| ==> nodes[i] in repr
    }

    constructor (min: nat, max: nat)
      ensures Ready() && ranges == [] && repr == {} && this.min == min && this.max == max
    {
      this.min, this.max := min, max;
      head, last := null, null;
      nodes, ranges, repr := [], [], {};
    }

    ghost predicate NoRepeats()
      reads this`nodes
    {
      forall i, j :: 0 <= i < j < |nodes| ==> nodes[i] != nodes[j]
    }

    lemma Distinct()
      requires Holds() && Gapped(ranges)
      ensures NoRepeats()
    {
      forall i, j | 0 <= i < j < |nodes| ensures nodes[i] != nodes[j] {
        assert ranges[i].hi < ranges[j].lo < ranges[j].hi;
      }
    }

    /** Take the successor of r out of the list. */
    method Unlink(r: RegionEl, next: RegionEl, ghost k: nat)
      requires Linked() && NoRepeats() && k + 1 < |nodes| && nodes[k] == r && nodes[k + 1] == next
      modifies this`nodes, this`last, r`next
      ensures Linked() && nodes == old(nodes)[..k + 1] + old(nodes)[k + 2..]
    {
      ghost var ns := nodes;
      r.next := next.next;
      if r.next == null {
        last := r;
      }
      nodes := nodes[..k + 1] + nodes[k + 2..];
      assert |nodes| == |ns| - 1;
      forall i {:trigger nodes[i].next} | 0 <= i < |nodes|
        ensures nodes[i].next == NextIn(nodes, i)
      {
        ghost var j := if i <= k then i else i + 1;
        assert nodes[i] == ns[j];
        assert old(ns[j].next) == NextIn(ns, j);
      }
    }

    /** Put a new element in between prev and r. */
    method Link(start: nat, end: nat, prev: RegionEl?, r: RegionEl?, ghost k: nat) returns (el: RegionEl)
      requires Linked() && NoRepeats() && k <= |nodes|
      requires prev == (if k == 0 then null else nodes[k - 1])
      requires r == (if k == |nodes| then null else nodes[k])
      modifies this`nodes, this`last, this`head, nodes`next
      ensures Linked() && nodes == old(nodes)[..k] + [el] + old(nodes)[k..]
      ensures fresh(el) && el.start == start && el.end == end
      ensures forall n :: n in nodes ==> n in old(nodes) || fresh(n)
    {
      ghost var ns := nodes;
      el := new RegionEl(start, end, r);
      if el.next == null {
        last := el;
      }
      if prev != null {
        prev.next := el;
      } else {
        head := el;
      }
      nodes := nodes[..k] + [el] + nodes[k..];
      assert |nodes| == |ns| + 1 && nodes[k] == el;
      forall i {:trigger nodes[i].next} | 0 <= i < |nodes|
        ensures nodes[i].next == NextIn(nodes, i)
      {
        if i != k {
          ghost var j := if i < k then i else i - 1;
          assert nodes[i] == ns[j];
          assert old(ns[j].next) == NextIn(ns, j);
          assert i + 1 == k || i + 1 == |nodes| || nodes[i + 1] == ns[j + 1];
        }
      }
    }

    method GrowUp(r: RegionEl, end: nat, ghost k: nat)
      requires Valid() && k < |nodes| && nodes[k] == r && r.end < end <= max
      requires forall i :: k < i < |ranges| ==> end < ranges[i].lo
      modifies this`ranges, r
      ensures Valid() && nodes == old(nodes) && Adds(old(ranges), ranges, old(r.end), end)
    {
      Distinct();
      Grown(ranges, k, Range(r.start, end), r.end, end);
      r.end := end;
      ranges := ranges[k := Range(r.start, end)];
    }

    method GrowDown(r: RegionEl, start: nat, ghost k: nat)
      requires Valid() && k < |nodes| && nodes[k] == r && min <= start < r.start
      requires forall i :: 0 <= i < k ==> ranges[i].hi < start
      modifies this`ranges, r
      ensures Valid() && nodes == old(nodes) && Adds(old(ranges), ranges, start, old(r.start))
    {
      Distinct();
      Grown(ranges, k, Range(start, r.end), start, r.start);
      r.start := start;
      ranges := ranges[k := Range(start, r.end)];
    }

    /** Fill the gap between r and its successor, which is freed. */
    method FillGap(r: RegionEl, next: RegionEl, ghost k: nat)
      requires Valid() && k + 1 < |nodes| && nodes[k] == r && nodes[k + 1] == next
      modifies this`nodes, this`ranges, this`last, r
      ensures Valid() && nodes == old(nodes)[..k + 1] + old(nodes)[k + 2..]
      ensures Adds(old(ranges), ranges, old(r.end), old(next.start))
    {
      Distinct();
      GapFilled(ranges, k);
      ghost var ns, rs := nodes, ranges;
      r.end := next.end;
      Unlink(r, next, k);
      ranges := Merged(ranges, k);
      forall i | 0 <= i < |nodes|
        ensures ranges[i] == Range(nodes[i].start, nodes[i].end)
      {
        ghost var j := if i <= k then i else i + 1;
        assert nodes[i] == ns[j];
        assert i != k ==> ranges[i] == rs[j];
      }
      MergedWithin(rs, k, min, max);
    }

    /** Link a new element in, and record its range. */
    method InsertNode(start: nat, end: nat, prev: RegionEl?, r: RegionEl?, ghost k: nat)
      requires Linked() && Holds() && NoRepeats() && k <= |nodes|
      requires prev == (if k == 0 then null else nodes[k - 1])
      requires r == (if k == |nodes| then null else nodes[k])
      modifies this`nodes, this`ranges, this`last, this`head, nodes
      ensures Linked() && Holds() && ranges == WithNew(old(ranges), k, Range(start, end))
      ensures forall n :: n in nodes ==> n in old(nodes) || fresh(n)
    {
      ghost var ns, rs := nodes, ranges;
      var el := Link(start, end, prev, r, k);
      ranges := WithNew(ranges, k, Range(start, end));
      assert |ranges| == |nodes| && ranges[k] == Range(start, end) && nodes[k] == el;
      forall i | 0 <= i < |nodes|
        ensures ranges[i] == Range(nodes[i].start, nodes[i].end)
      {
        if i != k {
          ghost var j := if i < k then i else i - 1;
          assert nodes[i] == ns[j] && ranges[i] == rs[j];
          assert old(rs[j] == Range(ns[j].start, ns[j].end));
        }
      }
    }

    method Insert(start: nat, end: nat, prev: RegionEl?, r: RegionEl?, ghost k: nat)
      requires Valid() && Splits(ranges, k, start, end) && min <= start < end <= max
      requires prev == (if k == 0 then null else nodes[k - 1])
      requires r == (if k == |nodes| then null else nodes[k])
      modifies this`nodes, this`ranges, this`last, this`head, nodes
      ensures Valid() && (forall n :: n in nodes ==> n in old(nodes) || fresh(n))
      ensures Adds(old(ranges), ranges, start, end)
    {
      Distinct();
      NewRange(ranges, k, start, end);
      NewWithin(ranges, k, Range(start, end), min, max);
      InsertNode(start, end, prev, r, k);
    }

    /** region_allocate.  It succeeds exactly on a non-empty range in bounds that is disjoint from
        everything allocated, and then allocates just that range; otherwise nothing changes. */
    method Allocate(start: nat, n: nat) returns (outcome: Outcome)
      requires Ready()
      modifies this, repr
      ensures Ready() && fresh(repr - old(repr))
      ensures outcome == OutOfBounds <==> start < min || start + n > max
      ensures outcome == Done <==> n > 0 && min <= start && start + n <= max && Free(old(ranges), start, start + n)
      ensures if outcome == Done then Adds(old(ranges), ranges, start, start + n) else ranges == old(ranges)
    {
      hide Adds, Free, Gapped, Linked, Holds;
      outcome := AllocateRange(start, n);
      repr := repr + (set e | e in nodes);
    }

    method AllocateRange(start: nat, n: nat) returns (outcome: Outcome)
      requires Valid()
      modifies this`nodes, this`ranges, this`last, this`head, nodes
      ensures Valid() && (forall e :: e in nodes ==> e in old(nodes) || fresh(e))
      ensures outcome == OutOfBounds <==> start < min || start + n > max
      ensures outcome == Done <==> n > 0 && min <= start && start + n <= max && Free(old(ranges), start, start + n)
      ensures if outcome == Done then Adds(old(ranges), ranges, start, start + n)
              else nodes == old(nodes) && ranges == old(ranges)
    {
      var end := start + n;
      if start < min || end > max {
        return OutOfBounds;
      }
      if n == 0 {
        return Conflict;
      }
      if last != null && last.end == start && last.next == null {
        FreeBetween(ranges, |ranges|, start, end);
        GrowUp(last, end, |nodes| - 1);
        return Done;
      }
      if last != null && start > last.end && last.next == null {
        FreeBetween(ranges, |ranges|, start, end);
        Insert(start, end, last, null, |nodes|);
        return Done;
      }
      outcome := PlaceRange(start, end);
    }

    /** The walk through the list for the place of [start, end). */
    method Locate(start: nat, end: nat) returns (place: Place, prev: RegionEl?, r: RegionEl?, ghost k: nat)
      requires Valid() && start < end
      ensures Fits(ranges, place, k, start, end)
      ensures r == (if k == |nodes| then null else nodes[k])
      ensures prev == (if k == 0 then null else nodes[k - 1])
    {
      r, prev, k := head, null, 0;
      while r != null
        invariant k <= |nodes| && r == (if k == |nodes| then null else nodes[k])
        invariant prev == (if k == 0 then null else nodes[k - 1])
        invariant forall i :: 0 <= i < k ==> ranges[i].hi < start
        decreases |nodes| - k
      {
        assert ranges[k] == Range(r.start, r.end);
        assert r.next == NextIn(nodes, k);
        if (start >= r.start && start < r.end) || (end > r.start && end <= r.end)
           || (start <= r.start && end >= r.end) {
          Overlapping(ranges, k, start, end);
          return Clash, prev, r, k;
        }
        if end == r.start {
          return Below, prev, r, k;
        }
        if start == r.end {
          var next := r.next;
          if next != null {
            assert ranges[k + 1] == Range(next.start, next.end);
            if end > next.start {
              Overlapping(ranges, k + 1, start, end);
              return Clash, prev, r, k;
            }
            if end == next.start {
              return Bridge, prev, r, k;
            }
          }
          return Above, prev, r, k;
        }
        if start < r.start {
          break;
        }
        prev, r, k := r, r.next, k + 1;
      }
      SplitsAt(ranges, k, start, end);
      return Apart, prev, r, k;
    }

    /** Walk to the place of [start, end), and act there. */
    method PlaceRange(start: nat, end: nat) returns (outcome: Outcome)
      requires Valid() && min <= start < end <= max
      modifies this`nodes, this`ranges, this`last, this`head, nodes
      ensures Valid() && (forall e :: e in nodes ==> e in old(nodes) || fresh(e))
      ensures outcome == if Free(old(ranges), start, end) then Done else Conflict
      ensures if outcome == Done then Adds(old(ranges), ranges, start, end)
              else nodes == old(nodes) && ranges == old(ranges)
    {
      hide Adds, Free, Gapped;
      var place, prev, r, k := Locate(start, end);
      FitsMeansFree(ranges, place, k, start, end);
      outcome := Done;
      match place
      case Clash => outcome := Conflict;
      case Below => GrowDown(r, start, k);
      case Bridge =>
        assert r.next == NextIn(nodes, k);
        FillGap(r, r.next, k);
      case Above => GrowUp(r, end, k);
      case Apart => Insert(start, end, prev, r, k);
    }
  }
}

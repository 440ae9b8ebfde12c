/**
  How pass 1 settles the reference counts of extended attribute blocks.  The first accepted
  reference to a block stores how many more its header promises; every further reference takes
  one off, and references beyond the promise go to a second table.  At the end one walk over
  each table corrects the headers.
 */
module EaAccounting {
  import opened Widths
  import opened EaRefcount

  /** One inode's reference to an EA block.  `valid` is the verdict of validating the block, which
      matters only when the block has not been accepted before. */
  datatype Reference = Reference(blk: nat, valid: bool)

  /** How many of the references to `b` are accepted. */
  function Accepted(refs: seq<Reference>, b: nat): nat
  {
    if refs == [] then 0
    else
      var n, last := Accepted(refs[..|refs| - 1], b), refs[|refs| - 1];
      if last.blk == b && (n > 0 || last.valid) then n + 1 else n
  }

  // ---------------------------------------------------------------- the balance of one block

  /** How many references the header promises beyond the first, as a 32-bit subtraction. */
  function Promised(h: nat): nat
    requires h < U32
  {
    if h == 0 then U32 - 1 else h - 1
  }

  /** What the two tables hold for a block with header count `h` after `n` accepted references. */
  function Owed(h: nat, n: nat): nat
    requires h < U32
  {
    if n == 0 || n - 1 >= Promised(h) then 0 else Promised(h) - (n - 1)
  }

  function Surplus(h: nat, n: nat): nat
    requires h < U32
  {
    if n == 0 || n - 1 <= Promised(h) then 0 else (n - 1 - Promised(h)) % U64
  }

  function Down(h: nat, c: nat): nat { (h - c) % U32 }
  function Up(h: nat, c: nat): nat { (h + c) % U32 }

  lemma {:induction false} ModSmaller(x: nat)
    ensures (x % U64) % U32 == x % U32
  {
    var q := x / U64;
    assert x == q * U64 + x % U64;
    assert x - x % U64 == (q * U32) * U32;
    ModShift(x % U64, q * U32);
  }

  lemma {:induction false} ModShift(a: int, q: int)
    ensures (a + q * U32) % U32 == a % U32
  {
    var d, r := a / U32, a % U32;
    assert a + q * U32 == (d + q) * U32 + r;
  }

  lemma {:induction false} ModSum(h: nat, c: nat)
    ensures (h + c % U64) % U32 == (h + c) % U32
  {
    ModSmaller(c);
    var x, y := c % U64, c;
    ModShift(h + x % U32, x / U32);
    ModShift(h + y % U32, y / U32);
    assert x == x % U32 + x / U32 * U32 && y == y % U32 + y / U32 * U32;
  }

  /** The arithmetic of conservation: applying both corrections yields the number of references,
      for every stored count and every number of references, modulo the 32-bit header field. */
  lemma {:induction false} Balance(h: nat, n: nat)
    requires h < U32 && n > 0
    ensures Owed(h, n) == 0 || Surplus(h, n) == 0
    ensures Up(Down(h, Owed(h, n)), Surplus(h, n)) == n % U32
  {
    var p := Promised(h);
    if n - 1 <= p {
      assert h - Owed(h, n) == n || h - Owed(h, n) == n - U32;
      ModShift(n - U32, 1);
      assert Down(h, Owed(h, n)) == n % U32;
    } else {
      assert Down(h, 0) == h;
      ModSum(h, n - 1 - p);
      ModShift(n, if h == 0 then -1 else 0);
    }
  }

  /** One more accepted reference moves the balance exactly as the code does. */
  lemma {:induction false} BalanceStep(h: nat, n: nat)
    requires h < U32
    ensures n == 0 ==> Owed(h, 1) == Promised(h) && Surplus(h, 1) == 0
    ensures n > 0 && Owed(h, n) != 0 ==> Owed(h, n + 1) == Owed(h, n) - 1 && Surplus(h, n + 1) == 0
    ensures n > 0 && Owed(h, n) == 0 ==> Owed(h, n + 1) == 0 && Surplus(h, n + 1) == (Surplus(h, n) + 1) % U64
  {
  }

  // ---------------------------------------------------------------- the walk over a table

  /** One correction of a header, if it is accepted. */
  function Corrected(disk: map<nat, nat>, e: El, up: bool): (d: map<nat, nat>)
    ensures d.Keys == disk.Keys
  {
    if e.key !in disk then disk
    else disk[e.key := if up then Up(disk[e.key], e.value) else Down(disk[e.key], e.value)]
  }

  function CorrectAll(disk: map<nat, nat>, es: seq<El>, up: bool, fix: set<nat>): (d: map<nat, nat>)
    ensures d.Keys == disk.Keys
  {
    if es == [] then disk
    else
      var d, e := CorrectAll(disk, es[..|es| - 1], up, fix), es[|es| - 1];
      if e.key in fix then Corrected(d, e, up) else d
  }

  lemma {:induction false} NoneCorrected(disk: map<nat, nat>, z: seq<El>, up: bool, fix: set<nat>)
    ensures CorrectAll(disk, z[..0], up, fix) == disk
  {
  }

  lemma {:induction false} OneMoreCorrected(disk: map<nat, nat>, z: seq<El>, i: nat, up: bool, fix: set<nat>)
    requires i < |z|
    ensures var d := CorrectAll(disk, z[..i], up, fix);
            CorrectAll(disk, z[..i + 1], up, fix) == if z[i].key in fix then Corrected(d, z[i], up) else d
  {
    assert z[..i + 1][..i] == z[..i];
  }

  /** A header count after the walk that corrects it by `c`. */
  function Settled(h: nat, c: nat, up: bool, accepted: bool): nat
  {
    if !accepted then h else if up then Up(h, c) else Down(h, c)
  }

  lemma {:induction false} WalkedKeys(s: seq<El>)
    requires Sorted(s)
    ensures forall i :: 0 <= i < |NonZero(s)| ==> NonZero(s)[i].key in Counts(s)
  {
    IterationIsExact(s);
  }

  lemma {:induction false} CorrectAllElsewhere(disk: map<nat, nat>, es: seq<El>, up: bool, fix: set<nat>, b: nat)
    requires b in disk && (forall i :: 0 <= i < |es| ==> es[i].key != b)
    ensures CorrectAll(disk, es, up, fix)[b] == disk[b]
  {
    if es != [] {
      CorrectAllElsewhere(disk, es[..|es| - 1], up, fix, b);
    }
  }

  lemma {:induction false} CorrectAllAt(disk: map<nat, nat>, es: seq<El>, up: bool, fix: set<nat>, i: nat)
    requires Sorted(es) && i < |es| && es[i].key in disk
    ensures CorrectAll(disk, es, up, fix)[es[i].key] ==
            Settled(disk[es[i].key], es[i].value, up, es[i].key in fix)
  {
    if i == |es| - 1 {
      CorrectAllElsewhere(disk, es[..i], up, fix, es[i].key);
    } else {
      CorrectAllAt(disk, es[..|es| - 1], up, fix, i);
    }
  }

  /** The walk corrects every accepted header by its count, whatever order the counts came in. */
  lemma {:induction false} CorrectAllMeans(disk: map<nat, nat>, s: seq<El>, up: bool, fix: set<nat>, b: nat)
    requires Sorted(s) && b in disk && disk[b] < U32
    ensures CorrectAll(disk, NonZero(s), up, fix)[b] ==
            Settled(disk[b], Get(Counts(s), b), up, b in fix)
  {
    NonZeroSorted(s);
    var i := IterationMeets(s, b);
    if b in Counts(s) {
      CorrectAllAt(disk, NonZero(s), up, fix, i);
    } else {
      CorrectAllElsewhere(disk, NonZero(s), up, fix, b);
    }
  }

  // ---------------------------------------------------------------- the code

  class Pass1 {
    const firstData: nat
    const blocksCount: nat
    var seen: set<nat>              // block_ea_map
    const refcount: Refcount
    const extra: Refcount           // refcount_extra; created empty here, on first use in the source
    var disk: map<nat, nat>         // h_refcount of every block that can be read

    predicate InFs(b: nat)
    {
      b != 0 && firstData <= b < blocksCount
    }

    ghost predicate Separate()
      reads this, refcount, extra
    {
      refcount != extra && refcount.list != extra.list
    }

    ghost predicate Valid()
      reads this, refcount, refcount.list, extra, extra.list
    {
      && Separate() && refcount.Valid() && extra.Valid()
      && (forall b :: InFs(b) ==> b in disk)
      && (forall b :: b in disk ==> disk[b] < U32)
    }

    constructor (firstData: nat, blocksCount: nat, disk: map<nat, nat>)
      requires forall b :: b != 0 && firstData <= b < blocksCount ==> b in disk
      requires forall b :: b in disk ==> disk[b] < U32
      ensures Valid() && fresh(refcount) && fresh(extra) && fresh(refcount.list) && fresh(extra.list)
      ensures this.firstData == firstData && this.blocksCount == blocksCount && this.disk == disk
      ensures seen == {} && refcount.Abs() == map[] && extra.Abs() == map[]
    {
      this.firstData, this.blocksCount, this.disk := firstData, blocksCount, disk;
      seen := {};
      refcount := new Refcount(0);
      extra := new Refcount(0);
    }

    /** What the tables hold for block `b` once `n` references to it have been accepted. */
    ghost predicate Balanced(b: nat, n: nat)
      reads this, refcount, refcount.list, extra, extra.list
      requires Valid()
    {
      && (b in seen <==> n > 0)
      && (n > 0 ==> InFs(b))
      && (b in disk ==> Get(refcount.Abs(), b) == Owed(disk[b], n) && Get(extra.Abs(), b) == Surplus(disk[b], n))
      && (b !in disk ==> b !in refcount.Abs() && b !in extra.Abs())
    }

    /** check_ext_attr, as far as the reference counts go. */
    method CheckExtAttr(r: Reference, ghost n: nat) returns (accepted: bool)
      requires Valid() && Balanced(r.blk, n)
      modifies this`seen, refcount, refcount.list, extra, extra.list
      ensures Valid()
      ensures refcount.list == old(refcount.list) || fresh(refcount.list)
      ensures extra.list == old(extra.list) || fresh(extra.list)
      ensures accepted <==> InFs(r.blk) && (n > 0 || r.valid)
      ensures Balanced(r.blk, if accepted then n + 1 else n)
      ensures forall b :: b != r.blk ==> (b in seen) == (b in old(seen))
      ensures forall b :: b != r.blk ==> Get(refcount.Abs(), b) == Get(old(refcount.Abs()), b)
      ensures forall b :: b != r.blk ==> Get(extra.Abs(), b) == Get(old(extra.Abs()), b)
      ensures forall b :: b != r.blk ==> (b in refcount.Abs()) == (b in old(refcount.Abs()))
      ensures forall b :: b != r.blk ==> (b in extra.Abs()) == (b in old(extra.Abs()))
    {
      var blk := r.blk;
      if blk == 0 || blk < firstData || blk >= blocksCount {
        return false;
      }
      BalanceStep(disk[blk], n);
      if blk in seen {
        var ok := refcount.Decrement(blk);
        if !ok {
          var v := extra.Increment(blk);
        }
        return true;
      }
      if !r.valid {
        return false;
      }
      refcount.Store(blk, (disk[blk] + U32 - 1) % U32);
      seen := seen + {blk};
      return true;
    }

    /** adjust_extattr_refcount on one of the two tables. */
    method AdjustExtAttr(t: Refcount, up: bool, fix: set<nat>)
      requires Valid() && (t == refcount || t == extra)
      requires 0 !in t.Abs() && (forall b :: b in t.Abs() ==> b in disk)
      modifies this`disk, t`cursor
      ensures Valid() && disk.Keys == old(disk.Keys)
      ensures forall b :: b in disk ==> disk[b] == Settled(old(disk)[b], Get(t.Abs(), b), up, b in fix)
    {
      ghost var s := t.list[..t.count];
      WalkedKeys(s);
      disk := WalkTable(t, disk, up, fix);
      forall b | b in disk
        ensures disk[b] == Settled(old(disk)[b], Get(t.Abs(), b), up, b in fix)
      {
        CorrectAllMeans(old(disk), s, up, fix, b);
      }
    }

    /** Every block's books are in order after the references `refs`. */
    ghost predicate Books(refs: seq<Reference>)
      reads this, refcount, refcount.list, extra, extra.list
    {
      Valid() && forall b :: InOrder(refs, b)
    }

    ghost predicate InOrder(refs: seq<Reference>, b: nat)
      reads this, refcount, refcount.list, extra, extra.list
      requires Valid()
    {
      Balanced(b, AcceptedHere(refs, b))
    }

    /** References outside the file system are never accepted. */
    ghost function AcceptedHere(refs: seq<Reference>, b: nat): nat
      reads this
    {
      if InFs(b) then Accepted(refs, b) else 0
    }

    /** All the inodes of the file system, in whatever order they refer to their EA blocks. */
    method ScanInodes(refs: seq<Reference>)
      requires Valid() && seen == {} && refcount.Abs() == map[] && extra.Abs() == map[]
      modifies this`seen, refcount, refcount.list, extra, extra.list
      ensures Books(refs)
    {
      for i := 0 to |refs|
        invariant Books(refs[..i])
        invariant refcount.list == old(refcount.list) || fresh(refcount.list)
        invariant extra.list == old(extra.list) || fresh(extra.list)
      {
        ghost var upTo := refs[..i + 1];
        assert upTo[..i] == refs[..i];
        ghost var n := AcceptedHere(refs[..i], refs[i].blk);
        assert InOrder(refs[..i], refs[i].blk);
        label before:
        var accepted := CheckExtAttr(refs[i], n);
        forall b
          ensures InOrder(upTo, b)
        {
          assert old@before(InOrder(refs[..i], b));
        }
      }
      assert refs[..|refs|] == refs;
    }

    /** Conservation over the whole of pass 1.  For every interleaving of references, no block
        is left in both tables, and every header whose correction is accepted ends up with the
        number of accepted references to it; every other header keeps its count. */
    method Run(refs: seq<Reference>, fix: set<nat>)
      requires Valid() && seen == {} && refcount.Abs() == map[] && extra.Abs() == map[]
      modifies this, refcount, refcount.list, extra, extra.list
      ensures Valid() && disk.Keys == old(disk.Keys)
      ensures forall b :: b !in refcount.Abs() || b !in extra.Abs()
      ensures forall b :: b in disk && InFs(b) && b in fix && Accepted(refs, b) > 0 ==>
                disk[b] == Accepted(refs, b) % U32
      ensures forall b :: b in disk && (!InFs(b) || b !in fix || Accepted(refs, b) == 0) ==> disk[b] == old(disk)[b]
    {
      ScanInodes(refs);
      forall b
        ensures b !in refcount.Abs() || b !in extra.Abs()
        ensures b in refcount.Abs() || b in extra.Abs() ==> b in disk && b != 0
      {
        assert InOrder(refs, b);
        CountsNonZero(refcount.list[..refcount.count], b);
        CountsNonZero(extra.list[..extra.count], b);
        if b in disk && AcceptedHere(refs, b) > 0 {
          Balance(disk[b], AcceptedHere(refs, b));
        }
      }
      ghost var rc, ex, d0 := refcount.Abs(), extra.Abs(), disk;
      forall b | b in disk
        ensures Get(rc, b) == Owed(d0[b], AcceptedHere(refs, b)) && Get(ex, b) == Surplus(d0[b], AcceptedHere(refs, b))
      {
        assert InOrder(refs, b);
      }
      AdjustExtAttr(refcount, false, fix);
      AdjustExtAttr(extra, true, fix);
      forall b | b in disk && InFs(b) && b in fix && Accepted(refs, b) > 0
        ensures disk[b] == Accepted(refs, b) % U32
      {
        Balance(d0[b], Accepted(refs, b));
      }
    }
  }

  /** The walk of adjust_extattr_refcount; `disk` is the header count of every readable block. */
  method WalkTable(t: Refcount, disk: map<nat, nat>, up: bool, fix: set<nat>) returns (d: map<nat, nat>)
    requires t.Valid()
    requires forall e :: e in NonZero(t.list[..t.count]) ==> e.key != 0 && e.key in disk
    modifies t`cursor
    ensures d == CorrectAll(disk, NonZero(t.list[..t.count]), up, fix)
  {
    hide NonZero, Sorted, Counts, CorrectAll;
    ghost var z := NonZero(t.list[..t.count]);
    t.IntrBegin();
    ghost var i := 0;
    NoneCorrected(disk, z, up, fix);
    d := disk;
    while true
      invariant 0 <= i <= |z| && t.Remaining() == z[i..]
      invariant d == CorrectAll(disk, z[..i], up, fix)
      decreases |z| - i
    {
      assert i < |z| ==> z[i] in z;
      var blk, count := t.IntrNext();
      if blk == 0 {
        break;
      }
      OneMoreCorrected(disk, z, i, up, fix);
      if blk in fix {
        d := d[blk := if up then Up(d[blk], count) else Down(d[blk], count)];
      }
      i := i + 1;
    }
    assert z[..i] == z;
  }
}

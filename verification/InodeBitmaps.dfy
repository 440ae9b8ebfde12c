/**
  Pass 5 on the inode bitmaps.  Inodes are numbered from 1; group g holds `ipg` of them.  A group
  whose bitmap is marked uninitialised is taken to be empty and, if pass 1 found it so, skipped at
  once.  Runs of free inodes are discarded from the group's inode table, in whole blocks.
 */
module InodeBitmaps {
  import opened Bits

  /** Blocks [start, start + count) of the inode table of a group. */
  datatype TableRun = TableRun(group: nat, start: nat, count: nat)

  // ---------------------------------------------------------------- rounding

  /** Division as C does it on signed operands: toward zero. */
  function TruncDiv(a: int, b: nat): int
    requires b > 0
  {
    if a >= 0 then a / b else -((-a) / b)
  }

  function RoundUp(n: nat, d: nat): nat
    requires d > 0
  {
    (n + d - 1) / d
  }

  lemma {:induction false} RoundUpBounds(n: nat, d: nat)
    requires d > 0
    ensures n <= RoundUp(n, d) * d < n + d
  {
    var x := n + d - 1;
    assert x == (x / d) * d + x % d;
  }

  lemma {:induction false} FloorTimes(a: nat, d: nat)
    requires d > 0
    ensures 0 <= a / d && (a / d) * d <= a
  {
    assert a == (a / d) * d + a % d;
  }

  lemma {:induction false} TruncDivBounds(a: int, d: nat)
    requires d > 0 && a + d > 0
    ensures TruncDiv(a, d) >= 0 && (a < 0 ==> TruncDiv(a, d) == 0)
    ensures TruncDiv(a, d) * d <= if a < 0 then 0 else a
  {
    if a < 0 {
      QuotientUnique(-a, d, 0, -a);
      assert TruncDiv(a, d) == 0;
    } else {
      FloorTimes(a, d);
      assert TruncDiv(a, d) == a / d;
    }
  }

  /** The number of whole blocks is never negative, even when the run is too short to reach the
      next block boundary, so the conversion to an unsigned count is harmless. */
  lemma {:induction false} WholeBlocks(s: nat, count: nat, d: nat)
    requires d > 0 && count >= 1
    ensures var left := count - (RoundUp(s, d) * d - s);
            TruncDiv(left, d) >= 0 && TruncDiv(left, d) * d <= (if left < 0 then 0 else left)
            && (left < 0 ==> TruncDiv(left, d) == 0)
  {
    RoundUpBounds(s, d);
    TruncDivBounds(count - (RoundUp(s, d) * d - s), d);
  }

  /** A block that is discarded holds only inodes of the free run. */
  lemma {:induction false} RoundedInside(s: nat, count: nat, d: nat, k: nat)
    requires d > 0 && count >= 1
    requires var num := TruncDiv(count - (RoundUp(s, d) * d - s), d);
             RoundUp(s, d) <= k / d < RoundUp(s, d) + num
    ensures s <= k < s + count
  {
    hide RoundUp, TruncDiv;
    WholeBlocks(s, count, d);
    RoundUpBounds(s, d);
    assert k == (k / d) * d + k % d;
    InsideBlocks(s, count, d, k, RoundUp(s, d), k / d, TruncDiv(count - (RoundUp(s, d) * d - s), d));
  }

  lemma {:induction false} InsideBlocks(s: nat, count: nat, d: nat, k: nat, blk: nat, q: nat, num: nat)
    requires d > 0 && q * d <= k < q * d + d && blk <= q < blk + num
    requires s <= blk * d && num * d <= if count < blk * d - s then 0 else count - (blk * d - s)
    ensures s <= k < s + count
  {
    Scaled(blk, q, d);
    Scaled(q + 1, blk + num, d);
    assert (blk + num) * d == blk * d + num * d;
    assert (q + 1) * d == q * d + d;
  }

  /** Every block of the table that lies inside the free run is discarded. */
  lemma {:induction false} RoundedWhole(s: nat, count: nat, d: nat, t: nat)
    requires d > 0 && s <= t * d && (t + 1) * d <= s + count
    ensures var num := TruncDiv(count - (RoundUp(s, d) * d - s), d);
            RoundUp(s, d) <= t < RoundUp(s, d) + num
  {
    RoundUpBounds(s, d);
    var blk := RoundUp(s, d);
    var left := count - (blk * d - s);
    NotBelow(blk, t, d, s);
    assert (t + 1) * d == t * d + d;
    assert (t + 1 - blk) * d == (t + 1) * d - blk * d <= left;
    QuotientAtLeast(left, d, t + 1 - blk);
  }

  lemma {:induction false} NotBelow(blk: nat, t: nat, d: nat, s: nat)
    requires blk * d < s + d && s <= t * d
    ensures blk <= t
  {
    Scaled(Min(t + 1, blk), blk, d);
    assert (t + 1) * d == t * d + d;
  }

  lemma {:induction false} QuotientAtLeast(a: int, d: nat, q: nat)
    requires d > 0 && q * d <= a
    ensures TruncDiv(a, d) >= q
  {
    assert q * d >= 0;
    var r := a / d;
    assert a == r * d + a % d;
    assert (r + 1) * d > q * d;
    MoreThan(r + 1, q, d);
  }

  lemma {:induction false} MoreThan(a: int, b: nat, d: nat)
    requires d > 0 && a * d > b * d
    ensures a > b
  {
    assert (a - b) * d > 0;
  }

  lemma {:induction false} Scaled(a: nat, b: nat, d: nat)
    requires a <= b
    ensures a * d <= b * d
  {
    assert b * d == a * d + (b - a) * d;
  }

  // ---------------------------------------------------------------- the code

  class Pass5 {
    const groups: nat
    const ipg: nat                // s_inodes_per_group
    const ipb: nat                // inodes per block of the inode table
    const used: set<nat>          // inode_used_map
    const dirs: set<nat>          // inode_dir_map
    const padding: set<nat>
    const csum: bool              // group descriptors carry checksums
    const zeroes: bool            // io_channel_discard_zeroes_data
    const fsChanged: bool
    const willing: nat -> bool    // whether the device carries out discard number k
    var inodeMap: set<nat>        // fs->inode_map
    var uninit: set<nat>          // groups with EXT2_BG_INODE_UNINIT
    var discardOn: bool
    var discards: seq<TableRun>
    ghost var refused: bool       // the device has refused a discard

    ghost predicate Geometry()
    {
      groups > 0 && ipg > 0 && ipb > 0 && forall b :: b in padding ==> b > groups * ipg
    }

    constructor (groups: nat, ipg: nat, ipb: nat, used: set<nat>, dirs: set<nat>, padding: set<nat>, csum: bool,
                 zeroes: bool, fsChanged: bool, willing: nat -> bool, inodeMap: set<nat>, uninit: set<nat>,
                 discardOn: bool)
      ensures this.groups == groups && this.ipg == ipg && this.ipb == ipb && this.used == used && this.dirs == dirs
      ensures this.padding == padding && this.csum == csum && this.zeroes == zeroes && this.fsChanged == fsChanged
      ensures this.willing == willing
      ensures this.inodeMap == inodeMap && this.uninit == uninit && this.discardOn == discardOn && discards == []
      ensures !refused
    {
      this.groups, this.ipg, this.ipb, this.used, this.dirs := groups, ipg, ipb, used, dirs;
      this.padding, this.csum, this.zeroes, this.fsChanged, this.willing := padding, csum, zeroes, fsChanged, willing;
      this.inodeMap, this.uninit, this.discardOn, discards, refused := inodeMap, uninit, discardOn, [], false;
    }

    function Start(g: nat): nat
    {
      GroupStart(1, ipg, g)
    }

    /** No inode in use lies in the blocks of the run. */
    ghost predicate Harmless(r: TableRun)
      requires ipb > 0
    {
      r.count > 0 && forall k :: 0 <= k < ipg && r.start <= k / ipb < r.start + r.count ==> Start(r.group) + k !in used
    }

    /** No inode in use lies in what has been handed to the device, which is nothing if the file system
        was changed; and if discarding is on the device has refused none. */
    ghost predicate DiscardsSafe()
      requires ipb > 0
      reads this`discardOn, this`discards, this`refused
    {
      && (forall i :: 0 <= i < |discards| ==> Harmless(discards[i])) && (fsChanged ==> discards == [])
      && refused == !Willing() && (discardOn ==> !refused)
    }

    /** The device has carried out every discard so far. */
    ghost predicate Willing()
      reads this`discards
    {
      forall i: nat :: i < |discards| ==> willing(i)
    }

    ghost predicate Holds(r: TableRun, g: nat, t: nat)
    {
      r.group == g && r.start <= t < r.start + r.count
    }

    /** Block `t` of the inode table of group `g` has been handed to the device. */
    ghost predicate Discarded(g: nat, t: nat)
      reads this`discards
    {
      exists i :: 0 <= i < |discards| && Holds(discards[i], g, t)
    }

    /** Block `t` of the table of group `g` holds only inodes that are not in use. */
    ghost predicate Unused(g: nat, t: nat)
    {
      AllClear(used, Start(g) + t * ipb, Start(g) + t * ipb + ipb)
    }

    /** As long as discarding is on: of the first `inodes` inodes of group `g`, every table block that
        begins before the open run and holds none in use has been handed to the device. */
    ghost predicate Thorough(g: nat, inodes: nat, firstFree: nat)
      reads this`discardOn, this`discards
    {
      discardOn && zeroes ==>
        forall t: nat :: t * ipb + ipb <= inodes && t * ipb + 1 < firstFree && Unused(g, t) ==> Discarded(g, t)
    }

    /** The open run begins at the start of the group or after an inode in use. */
    ghost predicate Maximal(g: nat, inodes: nat, firstFree: nat)
      reads this`discardOn
    {
      discardOn ==> if firstFree == ipg + 1 then inodes == 0 || Start(g) + inodes - 1 in used
                    else firstFree == 1 || (firstFree >= 2 && Start(g) + firstFree - 2 in used)
    }

    /** e2fsck_discard_inodes: `start` counts from 1 within the group. */
    method DiscardInodes(group: nat, start: nat, count: nat)
      requires Geometry() && DiscardsSafe() && count >= 1
      requires discardOn && 1 <= start <= ipg ==>
                 AllClear(used, Start(group) + start - 1, Start(group) + start - 1 + count)
      modifies this`discardOn, this`discards, this`refused
      ensures DiscardsSafe() && (discardOn ==> old(discardOn)) && (old(refused) ==> refused)
      ensures !refused && !fsChanged && 1 <= start <= ipg ==> discardOn == old(discardOn)
      ensures forall g: nat, t: nat :: old(Discarded(g, t)) ==> Discarded(g, t)
      ensures discardOn && zeroes ==>
                forall t: nat :: start - 1 <= t * ipb && t * ipb + ipb <= start - 1 + count ==> Discarded(group, t)
    {
      if start < 1 || start > ipg {
        discardOn := false;
      }
      if !discardOn || !zeroes {
        return;
      }
      var s := start - 1;
      var blk := RoundUp(s, ipb);
      var left := count - (blk * ipb - s);
      WholeBlocks(s, count, ipb);
      var num: nat := TruncDiv(left, ipb);
      forall t: nat | s <= t * ipb && t * ipb + ipb <= s + count ensures blk <= t < blk + num {
        assert (t + 1) * ipb == t * ipb + ipb;
        RoundedWhole(s, count, ipb, t);
      }
      if num > 0 {
        ghost var run := TableRun(group, blk, num);
        forall k | 0 <= k < ipg && blk <= k / ipb < blk + num ensures Start(group) + k !in used {
          RoundedInside(s, count, ipb, k);
        }
        assert Harmless(run);
        DiscardBlocks(group, blk, num);
      }
    }

    /** e2fsck_discard_blocks, on blocks of an inode table. */
    method DiscardBlocks(group: nat, start: nat, n: nat)
      requires ipb > 0 && DiscardsSafe() && Harmless(TableRun(group, start, n))
      modifies this`discardOn, this`discards, this`refused
      ensures DiscardsSafe() && discardOn == (old(discardOn) && !fsChanged && willing(|old(discards)|))
      ensures (old(refused) ==> refused) && (!refused && !fsChanged ==> discardOn == old(discardOn))
      ensures discards == old(discards) + if old(discardOn) && !fsChanged then [TableRun(group, start, n)] else []
      ensures forall g: nat, t: nat :: old(Discarded(g, t)) ==> Discarded(g, t)
      ensures discardOn ==> forall t: nat :: start <= t < start + n ==> Discarded(group, t)
    {
      if fsChanged {
        discardOn := false;
      }
      if discardOn {
        ghost var was := discards;
        discards := discards + [TableRun(group, start, n)];
        OneMoreRun(was, TableRun(group, start, n));
        if !willing(|discards| - 1) {
          discardOn, refused := false, true;
        }
      }
    }

    lemma {:induction false} OneMoreRun(was: seq<TableRun>, r: TableRun)
      requires discards == was + [r]
      ensures forall g: nat, t: nat :: (exists i :: 0 <= i < |was| && Holds(was[i], g, t)) ==> Discarded(g, t)
      ensures forall t: nat :: r.start <= t < r.start + r.count ==> Discarded(r.group, t)
    {
      forall g: nat, t: nat | exists i :: 0 <= i < |was| && Holds(was[i], g, t) ensures Discarded(g, t) {
        var i :| 0 <= i < |was| && Holds(was[i], g, t);
        assert Holds(discards[i], g, t);
      }
      forall t: nat | r.start <= t < r.start + r.count ensures Discarded(r.group, t) {
        assert Holds(discards[|was|], r.group, t);
      }
    }

    // The scan goes by the bits it saw: those of the bitmap on disk, none for a group taken to be
    // empty, and those found in use once the bitmap has been replaced.

    /** Where the scan stands when it is about to look at inode `i`. */
    ghost predicate At(i: nat, group: nat, inodes: nat)
    {
      i == Start(group) + inodes && inodes < ipg && group <= groups && (group == groups ==> inodes == 0)
    }

    /** The counts are right, for the bits seen, for everything before inode `i`. */
    ghost predicate Counted(seen: set<nat>, i: nat, group: nat, t: Tally, free: array<nat>, dirCounts: array<nat>)
      reads free, dirCounts
    {
      && free.Length == groups && dirCounts.Length == groups && group <= groups
      && (forall g :: 0 <= g < group ==> free[g] == ClearIn(seen, Start(g), Start(g + 1)))
      && (forall g :: 0 <= g < group ==> dirCounts[g] == SetIn(seen * dirs, Start(g), Start(g + 1)))
      && t.freeInodes == ClearIn(seen, 1, i)
      && t.groupFree == ClearIn(seen, Start(group), i)
      && t.groupDirs == SetIn(seen * dirs, Start(group), i)
    }

    /** Nothing has been seen from inode `i` on. */
    ghost predicate SeenBefore(seen: set<nat>, i: nat)
    {
      forall x :: x in seen ==> x < i
    }

    /** Inodes firstFree.. of the group (counting from 1) are free, or no run is open. */
    ghost predicate OpenRun(seen: set<nat>, firstFree: nat, group: nat, inodes: nat)
    {
      || firstFree == ipg + 1
      || (1 <= firstFree <= inodes <= ipg && AllClear(seen, Start(group) + firstFree - 1, Start(group) + inodes))
    }

    ghost predicate Trusted(seen: set<nat>, i: nat)
      reads this`discardOn
    {
      discardOn ==> SameBits(seen, used, 1, i)
    }

    lemma {:induction false} FirstOfGroup(i: nat, group: nat, inodes: nat)
      requires Geometry() && At(i, group, inodes)
      ensures i % ipg == 1 ==> inodes == 0 && ipg > 1
    {
      if inodes + 1 < ipg {
        ModOfGroup(group, ipg, inodes + 1);
      } else {
        ModOfGroup(group + 1, ipg, 0);
      }
      assert i == group * ipg + (inodes + 1);
      assert (group + 1) * ipg == group * ipg + ipg;
    }

    lemma {:induction false} Ends(group: nat)
      requires Geometry() && group < groups
      ensures Start(group + 1) == Start(group) + ipg <= groups * ipg + 1
      ensures group + 1 < groups ==> Start(group + 1) < groups * ipg + 1
    {
      Scaled(group + 1, groups, ipg);
      if group + 1 < groups {
        Scaled(group + 2, groups, ipg);
      }
    }

    /** Seeing one more bit changes no count that ends before it. */
    lemma {:induction false} SeenGrows(seen: set<nat>, i: nat, lo: nat, hi: nat)
      requires hi <= i
      ensures ClearIn(seen + {i}, lo, hi) == ClearIn(seen, lo, hi)
      ensures SetIn((seen + {i}) * dirs, lo, hi) == SetIn(seen * dirs, lo, hi)
    {
      SameCounts(seen + {i}, seen, lo, hi);
      SameCounts((seen + {i}) * dirs, seen * dirs, lo, hi);
    }

    /** The counts after inode `i`, whose bit was `bitmap`. */
    ghost function Next(t: Tally, i: nat, bitmap: bool): Tally
    {
      if bitmap then t.(groupDirs := t.groupDirs + if i in dirs then 1 else 0)
      else t.(freeInodes := t.freeInodes + 1, groupFree := t.groupFree + 1)
    }

    lemma {:induction false} CountedNext(seen: set<nat>, i: nat, group: nat, t: Tally, free: array<nat>,
                                         dirCounts: array<nat>, bitmap: bool)
      requires Geometry() && group < groups && Start(group) <= i && SeenBefore(seen, i)
      requires Counted(seen, i, group, t, free, dirCounts)
      ensures var seen' := if bitmap then seen + {i} else seen;
              SeenBefore(seen', i + 1) && Counted(seen', i + 1, group, Next(t, i, bitmap), free, dirCounts)
    {
      forall g | 0 <= g < group
        ensures ClearIn(seen + {i}, Start(g), Start(g + 1)) == ClearIn(seen, Start(g), Start(g + 1))
        ensures SetIn((seen + {i}) * dirs, Start(g), Start(g + 1)) == SetIn(seen * dirs, Start(g), Start(g + 1))
      {
        Scaled(g + 1, group, ipg);
        SeenGrows(seen, i, Start(g), Start(g + 1));
      }
      SeenGrows(seen, i, Start(group), i);
      SeenGrows(seen, i, 1, i);
    }

    /** A group taken to be empty, up to but not including its last inode. */
    lemma {:induction false} CountedJump(seen: set<nat>, i: nat, j: nat)
      requires SeenBefore(seen, i) && 1 <= i <= j
      ensures ClearIn(seen, i, j) == j - i && SetIn(seen * dirs, i, j) == 0
      ensures ClearIn(seen, 1, j) == ClearIn(seen, 1, i) + (j - i)
    {
      NoneSet(seen, i, j);
      SameCounts(seen * dirs, {}, i, j);
      SameCounts(seen, {}, i, j);
      NoneSet({}, i, j);
      SetAndClear(seen, i, j);
      ClearSplit(seen, 1, i, j);
    }

    lemma {:induction false} NoneSet(bits: set<nat>, lo: nat, hi: nat)
      requires AllClear(bits, lo, hi)
      ensures SetIn(bits, lo, hi) == 0
      decreases hi
    {
      if lo < hi {
        NoneSet(bits, lo, hi - 1);
      }
    }

    /** Where the discarding stands in a group. */
    ghost predicate Tidy(g: nat, inodes: nat, firstFree: nat)
      reads this`discardOn, this`discards
    {
      && Maximal(g, inodes, firstFree) && Thorough(g, inodes, firstFree) && Complete(g)
    }

    /** As long as discarding is on: every table block of an earlier group that holds no inode in use
        has been handed to the device. */
    ghost predicate Complete(group: nat)
      reads this`discardOn, this`discards
    {
      discardOn && zeroes ==>
        forall g: nat, t: nat :: g < group && t * ipb + ipb <= ipg && Unused(g, t) ==> Discarded(g, t)
    }

    /** An inode in use ends the run before it. */
    lemma {:induction false} RunEnds(g: nat, inodes: nat, t: nat)
      requires inodes >= 1 && Start(g) + inodes - 1 in used && t * ipb + ipb <= inodes && Unused(g, t) && ipb > 0
      ensures t * ipb + ipb <= inodes - 1
    {
      assert Start(g) + inodes - 1 < Start(g) + t * ipb + ipb ==> Start(g) + t * ipb <= Start(g) + inodes - 1;
    }

    /** A block that ends with a free inode and holds none in use begins inside the open run, or
        ended before. */
    lemma {:induction false} RunGoesOn(g: nat, inodes: nat, firstFree: nat, t: nat)
      requires discardOn && ipb > 0 && inodes >= 1 && Maximal(g, inodes - 1, firstFree)
      requires firstFree == ipg + 1 || firstFree <= inodes - 1
      requires t * ipb + ipb <= inodes && Unused(g, t)
      requires t * ipb + 1 < if firstFree > inodes then inodes else firstFree
      ensures t * ipb + ipb <= inodes - 1
    {
      var x := if firstFree == ipg + 1 then Start(g) + inodes - 2 else Start(g) + firstFree - 2;
      assert Start(g) + t * ipb <= x && x in used;
    }

    /** The discard bookkeeping for inode number `inodes` of a group, whose bit was `bitmap`. */
    method Account(group: nat, inodes: nat, bitmap: bool, firstFree: nat, ghost seen: set<nat>)
      returns (firstFree': nat)
      requires Geometry() && DiscardsSafe() && group < groups && 1 <= inodes <= ipg
      requires Trusted(seen, Start(group) + inodes) && OpenRun(seen, firstFree, group, inodes - 1)
      requires bitmap == (Start(group) + inodes - 1 in seen)
      requires Tidy(group, inodes - 1, firstFree)
      modifies this`discardOn, this`discards, this`refused
      ensures DiscardsSafe() && (discardOn ==> old(discardOn)) && (old(refused) ==> refused)
      ensures !refused && !fsChanged ==> discardOn == old(discardOn)
      ensures if inodes == ipg then firstFree' == ipg + 1 && Complete(group + 1)
              else OpenRun(seen, firstFree', group, inodes) && Tidy(group, inodes, firstFree')
    {
      hide DiscardsSafe, Discarded;
      firstFree' := firstFree;
      if bitmap {
        if inodes > firstFree' {
          DiscardInodes(group, firstFree', inodes - firstFree');
          firstFree' := ipg + 1;
        }
        if discardOn && zeroes {
          forall t: nat | t * ipb + ipb <= inodes && Unused(group, t) ensures Discarded(group, t) {
            RunEnds(group, inodes, t);
          }
        }
      } else {
        if discardOn && zeroes {
          forall t: nat | t * ipb + ipb <= inodes && Unused(group, t)
                          && t * ipb + 1 < (if firstFree > inodes then inodes else firstFree)
            ensures Discarded(group, t)
          {
            RunGoesOn(group, inodes, firstFree, t);
          }
        }
        if firstFree' > inodes {
          firstFree' := inodes;
        }
      }
      if inodes == ipg {
        if !bitmap && inodes >= firstFree' {
          DiscardInodes(group, firstFree', inodes - firstFree' + 1);
        }
        firstFree' := ipg + 1;
      }
    }

    /** In every group whose bitmap counts, the bits seen before `i` are those of the bitmap. */
    ghost predicate Faithful(seen: set<nat>, bits: set<nat>, skipped: set<nat>, i: nat)
    {
      forall g: nat, x: nat :: g < groups && !(csum && g in skipped) && InGroup(g, x) && x < i ==>
        (x in seen <==> x in bits)
    }

    /** A group still taken to be empty when inode `i` is met: it is marked so, and at no inode in use
        before `i` was the mark cleared. */
    ghost predicate Shut(m: Marks, g: nat, i: nat)
    {
      csum && g in m.uninit && AllClear(used * m.cleared, Start(g), i)
    }

    /** The bits seen before `i` are those of the bitmap, except where a group is taken to be empty. */
    ghost predicate Read(seen: set<nat>, bits: set<nat>, m: Marks, i: nat)
    {
      forall g: nat, x: nat :: g < groups && InGroup(g, x) && x < i ==> (x in seen <==> x in bits && !Shut(m, g, x))
    }

    lemma {:induction false} ShutAtFirst(m: Marks, g: nat)
      ensures Shut(m, g, Start(g)) <==> csum && g in m.uninit
    {
    }

    lemma {:induction false} ShutNext(m: Marks, g: nat, i: nat)
      requires Start(g) <= i
      ensures Shut(m, g, i + 1) <==> Shut(m, g, i) && (i !in used || i !in m.cleared)
    {
      if Shut(m, g, i + 1) {
        assert i in used * m.cleared <==> i in used && i in m.cleared;
      }
    }

    /** Whether group `g` is still marked when the scan stands at inode `i` of group `group`. */
    ghost predicate StillMarked(m: Marks, group: nat, i: nat, g: nat)
    {
      && g in m.uninit
      && (csum ==> AllClear(used * m.cleared, Start(g),
                            if g < group then Start(g + 1) else if g == group then i else Start(g)))
    }

    ghost predicate MarksKept(m: Marks, redo: bool, group: nat, i: nat)
      reads this`uninit
    {
      if redo then uninit == m.uninit else forall g: nat :: g in uninit <==> StillMarked(m, group, i, g)
    }

    lemma {:induction false} MarksJumped(m: Marks, redo: bool, group: nat, j: nat)
      requires MarksKept(m, redo, group, Start(group)) && AllClear(used, Start(group), j)
      ensures MarksKept(m, redo, group, j)
    {
      forall g: nat ensures StillMarked(m, group, j, g) <==> StillMarked(m, group, Start(group), g) {
      }
    }

    /** After inode `i`, at which the mark was cleared or not. */
    lemma {:induction false} MarksCompared(m: Marks, redo: bool, group: nat, i: nat, skip: bool, was: set<nat>)
      requires Start(group) <= i && (!redo ==> (skip <==> Shut(m, group, i)))
      requires if redo then was == m.uninit else forall g: nat :: g in was <==> StillMarked(m, group, i, g)
      requires uninit == if !redo && skip && i in used && i in m.cleared then was - {group} else was
      ensures MarksKept(m, redo, group, i + 1)
    {
      if !redo {
        forall g: nat ensures g in uninit <==> StillMarked(m, group, i + 1, g) {
          if g == group {
            ShutNext(m, group, i);
          }
        }
      }
    }

    lemma {:induction false} MarksNextGroup(m: Marks, redo: bool, group: nat, i: nat)
      requires MarksKept(m, redo, group, i) && i == Start(group + 1)
      ensures MarksKept(m, redo, group + 1, i)
      ensures group + 1 in uninit <==> group + 1 in m.uninit
    {
      forall g: nat ensures StillMarked(m, group, i, g) <==> StillMarked(m, group + 1, i, g) {
      }
    }

    /** Some inode of group `g` is in use and clearing the mark of the group was accepted there. */
    ghost predicate Unmarked(g: nat, fixUninit: set<nat>)
    {
      csum && g < groups && exists x :: InGroup(g, x) && x in used && x in fixUninit
    }

    lemma {:induction false} MarksAtEnd(m: Marks, i: nat)
      requires MarksKept(m, false, groups, i) && i == Start(groups)
      ensures forall g: nat :: g in uninit <==> g in m.uninit && !Unmarked(g, m.cleared)
    {
      hide Start, StillMarked, Unmarked;
      forall g: nat ensures StillMarked(m, groups, i, g) <==> g in m.uninit && !Unmarked(g, m.cleared) {
        MarkAtEnd(m, g);
      }
    }

    lemma {:induction false} MarkAtEnd(m: Marks, g: nat)
      ensures StillMarked(m, groups, Start(groups), g) <==> g in m.uninit && !Unmarked(g, m.cleared)
    {
      hide Start;
      if g < groups && !AllClear(used * m.cleared, Start(g), Start(g + 1)) {
        var x :| Start(g) <= x < Start(g + 1) && x in used * m.cleared;
        assert InGroup(g, x);
      }
      if Unmarked(g, m.cleared) {
        var x :| InGroup(g, x) && x in used && x in m.cleared;
        assert x in used * m.cleared;
      }
    }

    ghost predicate InGroup(g: nat, x: nat)
    {
      Start(g) <= x < Start(g + 1)
    }

    lemma {:induction false} OneGroup(g: nat, h: nat, x: nat)
      requires InGroup(g, x) && InGroup(h, x)
      ensures g == h
    {
      Scaled(Min(g + 1, h), h, ipg);
      Scaled(Min(h + 1, g), g, ipg);
    }

    /** Compare inode `i` with what was found; a used inode in a group taken to be empty may clear
        the group's mark. */
    method Compare(i: nat, group: nat, redo: bool, skip: bool, fixUninit: set<nat>)
      returns (bitmap: bool, mismatch: bool, skip': bool)
      requires ipb > 0 && DiscardsSafe()
      modifies this`uninit, this`discardOn
      ensures bitmap == if redo then i in used else !skip && i in inodeMap
      ensures DiscardsSafe()
      ensures mismatch == (bitmap != (i in used)) && discardOn == (old(discardOn) && !mismatch)
      ensures skip' == (skip && (redo || i !in used || i !in fixUninit))
      ensures uninit == if !redo && skip && i in used && i in fixUninit then old(uninit) - {group} else old(uninit)
    {
      var actual := i in used;
      bitmap, skip' := false, skip;
      if redo {
        bitmap := actual;
      } else if !skip {
        bitmap := i in inodeMap;
      }
      mismatch := actual != bitmap;
      if mismatch {
        if actual && skip && i in fixUninit {
          uninit := uninit - {group};
          skip' := false;
        }
        discardOn := false;
      }
    }

    /** What is known of the bits seen before inode `i`, apart from the counts. */
    ghost predicate Known(seen: set<nat>, i: nat, had: bool, redo: bool, m: Marks)
      reads this`discardOn, this`inodeMap
    {
      && SeenBefore(seen, i) && Trusted(seen, i)
      && (had <==> !SameBits(seen, used, 1, i))
      && (if redo then !had else Read(seen, inodeMap, m, i))
    }

    ghost predicate Inv(p: Scanner, seen: set<nat>, redo: bool, m: Marks, free: array<nat>, dirCounts: array<nat>)
      reads this`discardOn, this`discards, this`refused, this`inodeMap, this`uninit, free, dirCounts
    {
      && Geometry() && DiscardsSafe()
      && At(p.i, p.group, p.inodes) && Counted(seen, p.i, p.group, p.t, free, dirCounts)
      && OpenRun(seen, p.firstFree, p.group, p.inodes) && Tidy(p.group, p.inodes, p.firstFree)
      && Known(seen, p.i, p.had, redo, m)
      && MarksKept(m, redo, p.group, p.i) && (p.skip ==> csum && p.group in m.uninit)
      && (!redo && p.group < groups ==> (p.skip <==> Shut(m, p.group, p.i)))
    }

    ghost function Saw(seen: set<nat>, i: nat, bitmap: bool): set<nat>
    {
      if bitmap then seen + {i} else seen
    }

    /** Leaving out all but the last inode of a group that is empty. */
    lemma {:induction false} Jumped(seen: set<nat>, i: nat, j: nat, group: nat, had: bool, redo: bool, m: Marks)
      requires Known(seen, i, had, redo, m) && i <= j <= Start(group + 1) && Start(group) == i
      requires AllClear(used, i, j) && csum && group in m.uninit
      ensures Known(seen, j, had, redo, m)
    {
      SameBitsJoin(seen, used, 1, i, j);
      if !redo {
        forall g: nat, x: nat | g < groups && InGroup(g, x) && x < j
          ensures x in seen <==> x in inodeMap && !Shut(m, g, x)
        {
          if x >= i {
            OneGroup(g, group, x);
          }
        }
      }
    }

    /** Look at one inode, or at all but the last of an empty group and then at the last. */
    method Look(p: Scanner, redo: bool, fixUninit: set<nat>, free: array<nat>, dirCounts: array<nat>,
                ghost seen: set<nat>, ghost m: Marks)
      returns (q: Scanner, bitmap: bool)
      requires Inv(p, seen, redo, m, free, dirCounts) && p.group < groups && fixUninit == m.cleared
      modifies this`uninit, this`discardOn
      ensures DiscardsSafe() && MarksKept(m, redo, p.group, q.i + 1)
      ensures p.i <= q.i && q.group == p.group && At(q.i, q.group, q.inodes)
      ensures SeenBefore(seen, q.i) && Counted(seen, q.i, q.group, q.t, free, dirCounts)
      ensures OpenRun(seen, q.firstFree, q.group, q.inodes) && Tidy(q.group, q.inodes, q.firstFree)
      ensures Known(Saw(seen, q.i, bitmap), q.i + 1, q.had, redo, m)
      ensures q.skip ==> csum && q.group in m.uninit
      ensures !redo && q.inodes + 1 < ipg ==> (q.skip <==> Shut(m, q.group, q.i + 1))
      ensures (discardOn ==> old(discardOn)) && (q.had == p.had ==> discardOn == old(discardOn)) && (p.had ==> q.had)
    {
      hide DiscardsSafe, ClearIn, SetIn, Read, Tidy, OpenRun, Counted, Shut, StillMarked;
      q, bitmap := p, false;
      FirstOfGroup(p.i, p.group, p.inodes);
      if p.skip && p.i % ipg == 1 && AllClear(used, p.i, p.i + ipg) {
        JumpOver(p, redo, free, dirCounts, seen, m);
        MarksJumped(m, redo, p.group, p.i + ipg);
        q := AtLast(p);
      } else {
        NextPosition(p.i, p.group, p.inodes);
        var mismatch, skip;
        ghost var was := uninit;
        bitmap, mismatch, skip := Compare(p.i, p.group, redo, p.skip, fixUninit);
        q := p.(skip := skip, had := p.had || mismatch);
        Ends(p.group);
        assert InGroup(p.group, p.i);
        Compared(seen, p, bitmap, redo, m);
        ShutNext(m, p.group, p.i);
        MarksCompared(m, redo, p.group, p.i, p.skip, was);
        if !discardOn {
          TidyOff(p.group, p.inodes, p.firstFree);
        }
      }
    }

    /** The scan's variables at the last inode of an empty group, all others being counted. */
    function AtLast(p: Scanner): Scanner
      requires ipg > 0
    {
      var n := ipg - 1;
      Scanner(p.i + n, p.group, n, 1, p.t.(groupFree := n, freeInodes := p.t.freeInodes + n), false, p.had)
    }

    lemma {:induction false} JumpOver(p: Scanner, redo: bool, free: array<nat>, dirCounts: array<nat>,
                                      seen: set<nat>, m: Marks)
      requires Inv(p, seen, redo, m, free, dirCounts) && p.group < groups && p.skip && p.inodes == 0 && ipg > 1
      requires AllClear(used, p.i, p.i + ipg)
      ensures var q := AtLast(p);
              && At(q.i, q.group, q.inodes) && SeenBefore(seen, q.i)
              && Counted(seen, q.i, q.group, q.t, free, dirCounts)
              && OpenRun(seen, q.firstFree, q.group, q.inodes) && Tidy(q.group, q.inodes, q.firstFree)
              && Known(seen, q.i + 1, q.had, redo, m)
    {
      hide DiscardsSafe, Read, Tidy;
      Ends(p.group);
      NextPosition(p.i, p.group, p.inodes);
      CountedJump(seen, p.i, p.i + ipg - 1);
      Jumped(seen, p.i, p.i + ipg, p.group, p.had, redo, m);
      Skipped(p.group, p.inodes, p.firstFree, ipg - 1);
    }

    lemma {:induction false} Compared(seen: set<nat>, p: Scanner, bitmap: bool, redo: bool, m: Marks)
      requires 1 <= p.i && InGroup(p.group, p.i) && p.group < groups
      requires SeenBefore(seen, p.i) && (!redo ==> (p.skip <==> Shut(m, p.group, p.i)))
      requires p.had <==> !SameBits(seen, used, 1, p.i)
      requires bitmap == if redo then p.i in used else !p.skip && p.i in inodeMap
      requires !redo ==> Read(seen, inodeMap, m, p.i)
      ensures SeenBefore(Saw(seen, p.i, bitmap), p.i + 1)
      ensures SameBits(Saw(seen, p.i, bitmap), used, 1, p.i + 1) <==>
                SameBits(seen, used, 1, p.i) && bitmap == (p.i in used)
      ensures !redo ==> Read(Saw(seen, p.i, bitmap), inodeMap, m, p.i + 1)
    {
      var seen' := Saw(seen, p.i, bitmap);
      SameBitsJoin(seen', used, 1, p.i, p.i + 1);
      assert SameBits(seen', used, 1, p.i) <==> SameBits(seen, used, 1, p.i);
      if !redo {
        forall g: nat, x: nat | g < groups && InGroup(g, x) && x < p.i + 1
          ensures x in seen' <==> x in inodeMap && !Shut(m, g, x)
        {
          if x == p.i {
            OneGroup(g, p.group, x);
          }
        }
      }
    }

    /** Store the counts of a group whose last inode is `i`. */
    method CloseGroup(i: nat, group: nat, t: Tally, free: array<nat>, dirCounts: array<nat>, ghost seen: set<nat>)
      requires Geometry() && group < groups && i + 1 == Start(group + 1) && free != dirCounts
      requires Counted(seen, i + 1, group, t, free, dirCounts)
      modifies free, dirCounts
      ensures Counted(seen, i + 1, group + 1, Tally(t.freeInodes, 0, 0), free, dirCounts)
    {
      free[group] := t.groupFree;
      dirCounts[group] := t.groupDirs;
    }

    /** Between the counting of an inode and the test whether it was the last of its group. */
    ghost predicate Between(p: Scanner, seen: set<nat>, redo: bool, m: Marks, free: array<nat>, dirCounts: array<nat>)
      reads this`discardOn, this`discards, this`refused, this`inodeMap, this`uninit, free, dirCounts
    {
      && Geometry() && DiscardsSafe()
      && p.group < groups && 1 <= p.inodes <= ipg && p.i == Start(p.group) + p.inodes
      && Counted(seen, p.i, p.group, p.t, free, dirCounts)
      && (if p.inodes == ipg then p.firstFree == ipg + 1 && Complete(p.group + 1)
          else OpenRun(seen, p.firstFree, p.group, p.inodes) && Tidy(p.group, p.inodes, p.firstFree))
      && Known(seen, p.i, p.had, redo, m)
      && MarksKept(m, redo, p.group, p.i) && (p.skip ==> csum && p.group in m.uninit)
      && (!redo && p.inodes < ipg ==> (p.skip <==> Shut(m, p.group, p.i)))
    }

    /** Count the inode just looked at. */
    method CountOne(p: Scanner, bitmap: bool, free: array<nat>, dirCounts: array<nat>,
                    ghost seen: set<nat>, ghost redo: bool, ghost m: Marks)
      returns (q: Scanner)
      requires Geometry() && DiscardsSafe() && MarksKept(m, redo, p.group, p.i + 1)
      requires p.group < groups && At(p.i, p.group, p.inodes)
      requires SeenBefore(seen, p.i) && Counted(seen, p.i, p.group, p.t, free, dirCounts)
      requires OpenRun(seen, p.firstFree, p.group, p.inodes) && Tidy(p.group, p.inodes, p.firstFree)
      requires Known(Saw(seen, p.i, bitmap), p.i + 1, p.had, redo, m)
      requires p.skip ==> csum && p.group in m.uninit
      requires !redo && p.inodes + 1 < ipg ==> (p.skip <==> Shut(m, p.group, p.i + 1))
      modifies this`discardOn, this`discards, this`refused
      ensures q.i == p.i + 1 && Between(q, Saw(seen, p.i, bitmap), redo, m, free, dirCounts)
      ensures q.had == p.had && (discardOn ==> old(discardOn)) && (old(refused) ==> refused)
              && (!refused && !fsChanged ==> discardOn == old(discardOn))
    {
      hide DiscardsSafe, Discarded, ClearIn, SetIn, Read, Maximal, Thorough, Complete;
      ghost var seen' := Saw(seen, p.i, bitmap);
      CountedNext(seen, p.i, p.group, p.t, free, dirCounts, bitmap);
      NextPosition(p.i, p.group, p.inodes);
      SawOpenRun(seen, p, bitmap);
      var t := if bitmap then p.t.(groupDirs := p.t.groupDirs + if p.i in dirs then 1 else 0)
               else p.t.(freeInodes := p.t.freeInodes + 1, groupFree := p.t.groupFree + 1);
      var firstFree := Account(p.group, p.inodes + 1, bitmap, p.firstFree, seen');
      q := Scanner(p.i + 1, p.group, p.inodes + 1, firstFree, t, p.skip, p.had);
    }

    lemma {:induction false} FreshGroup(seen: set<nat>, group: nat)
      requires Geometry() && Complete(group)
      ensures Tidy(group, 0, ipg + 1) && OpenRun(seen, ipg + 1, group, 0)
    {
      hide Complete, Discarded, Unused;
    }

    /** After the last inode of a group, go on to the next. */
    method Advance(p: Scanner, free: array<nat>, dirCounts: array<nat>,
                   ghost seen: set<nat>, ghost redo: bool, ghost m: Marks)
      returns (q: Scanner)
      requires Between(p, seen, redo, m, free, dirCounts) && free != dirCounts
      modifies free, dirCounts
      ensures q.i == p.i && q.had == p.had && Inv(q, seen, redo, m, free, dirCounts)
    {
      hide DiscardsSafe, Discarded, Counted, OpenRun, Tidy, Complete, Shut, Known, MarksKept;
      NextPosition(p.i - 1, p.group, p.inodes - 1);
      if p.inodes == ipg || p.i - 1 == groups * ipg {
        MarksNextGroup(m, redo, p.group, p.i);
        FreshGroup(seen, p.group + 1);
        CloseGroup(p.i - 1, p.group, p.t, free, dirCounts, seen);
        var group := p.group + 1;
        ShutAtFirst(m, group);
        Ends(p.group);
        var skip := csum && p.i - 1 != groups * ipg && group in uninit;
        q := Scanner(p.i, group, 0, p.firstFree, Tally(p.t.freeInodes, 0, 0), skip, p.had);
      } else {
        q := p;
      }
    }

    /** All of a group but its last inode is one open run. */
    lemma {:induction false} Skipped(g: nat, inodes: nat, firstFree: nat, n: nat)
      requires Tidy(g, inodes, firstFree) && ipg > 0
      ensures Tidy(g, n, 1)
    {
      hide Complete, Discarded;
    }

    lemma {:induction false} TidyOff(g: nat, inodes: nat, firstFree: nat)
      requires !discardOn
      ensures Tidy(g, inodes, firstFree)
    {
    }

    lemma {:induction false} NextPosition(i: nat, group: nat, inodes: nat)
      requires Geometry() && At(i, group, inodes) && group < groups
      ensures Start(group) <= i && i + 1 == Start(group) + (inodes + 1)
      ensures if inodes + 1 == ipg || i == groups * ipg
              then inodes + 1 == ipg && i + 1 == Start(group + 1) && At(i + 1, group + 1, 0)
              else At(i + 1, group, inodes + 1)
    {
      Ends(group);
    }

    lemma {:induction false} SawOpenRun(seen: set<nat>, p: Scanner, bitmap: bool)
      requires At(p.i, p.group, p.inodes) && SeenBefore(seen, p.i) && OpenRun(seen, p.firstFree, p.group, p.inodes)
      ensures OpenRun(Saw(seen, p.i, bitmap), p.firstFree, p.group, p.inodes)
      ensures bitmap == (p.i in Saw(seen, p.i, bitmap))
    {
    }

    /** One round of the counting loop. */
    method Scan(redo: bool, fixUninit: set<nat>, free: array<nat>, dirCounts: array<nat>)
      returns (had: bool, freeInodes: nat, ghost seen: set<nat>)
      requires Geometry() && DiscardsSafe() && free.Length == dirCounts.Length == groups && free != dirCounts
      modifies this`uninit, this`discardOn, this`discards, this`refused, free, dirCounts
      ensures DiscardsSafe() && Complete(groups) && (had ==> !discardOn) && (discardOn ==> old(discardOn))
      ensures !refused && !fsChanged && !had ==> discardOn == old(discardOn)
      ensures forall g :: 0 <= g < groups ==> free[g] == ClearIn(seen, Start(g), Start(g + 1))
      ensures forall g :: 0 <= g < groups ==> dirCounts[g] == SetIn(seen * dirs, Start(g), Start(g + 1))
      ensures freeInodes == ClearIn(seen, 1, Start(groups))
      ensures had <==> !SameBits(seen, used, 1, Start(groups))
      ensures if redo then !had else Read(seen, inodeMap, Marks(old(uninit), fixUninit), Start(groups))
      ensures if redo then uninit == old(uninit)
              else forall g: nat :: g in uninit <==> g in old(uninit) && !Unmarked(g, fixUninit)
    {
      hide DiscardsSafe, ClearIn, SetIn, SameBits, Read, Shut, OpenRun, Maximal, Thorough, Complete, StillMarked;
      ghost var m := Marks(uninit, fixUninit);
      seen := {};
      var p := Scanner(1, 0, 0, ipg + 1, Tally(0, 0, 0), csum && 0 in uninit, false);
      Begins(redo, m, free, dirCounts);
      while p.i <= groups * ipg
        invariant Inv(p, seen, redo, m, free, dirCounts)
        invariant (discardOn ==> old(discardOn)) && (old(refused) ==> refused)
        invariant !refused && !fsChanged && !p.had ==> discardOn == old(discardOn)
        decreases groups * ipg + 1 - p.i
      {
        StillInGroup(p.i, p.group, p.inodes);
        var bitmap;
        p, bitmap := Look(p, redo, fixUninit, free, dirCounts, seen, m);
        ghost var i := p.i;
        p := CountOne(p, bitmap, free, dirCounts, seen, redo, m);
        seen := Saw(seen, i, bitmap);
        p := Advance(p, free, dirCounts, seen, redo, m);
      }
      AllGroupsDone(p.i, p.group, p.inodes);
      if !redo {
        MarksAtEnd(m, p.i);
      }
      had, freeInodes := p.had, p.t.freeInodes;
    }

    lemma {:induction false} Begins(redo: bool, m: Marks, free: array<nat>, dirCounts: array<nat>)
      requires Geometry() && DiscardsSafe() && free.Length == dirCounts.Length == groups && m.uninit == uninit
      ensures Inv(Scanner(1, 0, 0, ipg + 1, Tally(0, 0, 0), csum && 0 in uninit, false), {}, redo, m, free, dirCounts)
    {
      hide DiscardsSafe, Discarded;
    }

    lemma {:induction false} StillInGroup(i: nat, group: nat, inodes: nat)
      requires Geometry() && At(i, group, inodes) && i <= groups * ipg
      ensures group < groups
    {
    }

    lemma {:induction false} AllGroupsDone(i: nat, group: nat, inodes: nat)
      requires Geometry() && At(i, group, inodes) && i > groups * ipg
      ensures group == groups && i == Start(groups)
    {
      if group < groups {
        Ends(group);
      }
    }

    /** The bits of the bitmap that the first round goes by. */
    ghost function ReadBits(bits: set<nat>, m: Marks): set<nat>
    {
      set x | x in bits && exists g: nat :: g < groups && InGroup(g, x) && !Shut(m, g, x)
    }

    /** What the last round sees: the bitmap, or the inodes in use once it has been replaced. */
    ghost function Scanned(redone: bool, bits: set<nat>, m: Marks): set<nat>
    {
      if redone then used else ReadBits(bits, m)
    }

    lemma {:induction false} SomeGroup(x: nat, n: nat) returns (g: nat)
      requires 1 <= x < Start(n)
      ensures g < n && InGroup(g, x)
      decreases n
    {
      if x >= Start(n - 1) {
        g := n - 1;
      } else {
        g := SomeGroup(x, n - 1);
      }
    }

    lemma {:induction false} ReadIsReadBits(seen: set<nat>, bits: set<nat>, m: Marks)
      requires Read(seen, bits, m, Start(groups))
      ensures SameBits(seen, ReadBits(bits, m), 1, Start(groups))
    {
      forall x | 1 <= x < Start(groups) ensures x in seen <==> x in ReadBits(bits, m) {
        var g := SomeGroup(x, groups);
        if x in ReadBits(bits, m) {
          var h: nat :| h < groups && InGroup(h, x) && !Shut(m, h, x);
          OneGroup(g, h, x);
        }
      }
    }

    /** The counts that a bitmap calls for. */
    ghost predicate CountsOf(bits: set<nat>, free: array<nat>, dirCounts: array<nat>, freeInodes: nat)
      reads free, dirCounts
      requires free.Length == dirCounts.Length == groups
    {
      && (forall g :: 0 <= g < groups ==> free[g] == ClearIn(bits, Start(g), Start(g + 1)))
      && (forall g :: 0 <= g < groups ==> dirCounts[g] == SetIn(bits * dirs, Start(g), Start(g + 1)))
      && freeInodes == ClearIn(bits, 1, Start(groups))
    }

    lemma {:induction false} SameGroupCounts(a: set<nat>, b: set<nat>, g: nat)
      requires SameBits(a, b, 1, Start(groups)) && g < groups
      ensures ClearIn(a, Start(g), Start(g + 1)) == ClearIn(b, Start(g), Start(g + 1))
      ensures SetIn(a * dirs, Start(g), Start(g + 1)) == SetIn(b * dirs, Start(g), Start(g + 1))
    {
      Scaled(g + 1, groups, ipg);
      SameCounts(a, b, Start(g), Start(g + 1));
      SameCounts(a * dirs, b * dirs, Start(g), Start(g + 1));
    }

    lemma {:induction false} SameCountsOf(a: set<nat>, b: set<nat>, free: array<nat>, dirCounts: array<nat>,
                                          freeInodes: nat)
      requires free.Length == dirCounts.Length == groups && CountsOf(a, free, dirCounts, freeInodes)
      requires SameBits(a, b, 1, Start(groups))
      ensures CountsOf(b, free, dirCounts, freeInodes)
    {
      hide ClearIn, SetIn, SameBits;
      forall g | 0 <= g < groups
        ensures free[g] == ClearIn(b, Start(g), Start(g + 1)) && dirCounts[g] == SetIn(b * dirs, Start(g), Start(g + 1))
      {
        SameGroupCounts(a, b, g);
      }
      SameCounts(a, b, 1, Start(groups));
    }

    /** Count, and after an accepted repair count again: there is at most one second round. */
    method Reconcile(fixMap: bool, fixUninit: set<nat>, free: array<nat>, dirCounts: array<nat>)
      returns (redone: bool, freeInodes: nat)
      requires Geometry() && discards == [] && !refused && free.Length == dirCounts.Length == groups
               && free != dirCounts
      modifies this`inodeMap, this`uninit, this`discardOn, this`discards, this`refused, free, dirCounts
      ensures DiscardsSafe() && Complete(groups) && (discardOn ==> old(discardOn))
      ensures var m := Marks(old(uninit), fixUninit);
              && (redone <==> fixMap && !SameBits(ReadBits(old(inodeMap), m), used, 1, Start(groups)))
              && CountsOf(Scanned(redone, old(inodeMap), m), free, dirCounts, freeInodes)
              && (!refused && !fsChanged && SameBits(ReadBits(old(inodeMap), m), used, 1, Start(groups))
                  ==> discardOn == old(discardOn))
      ensures inodeMap == if redone then used + padding else old(inodeMap)
      ensures forall g: nat :: g in uninit <==> g in old(uninit) && !Unmarked(g, fixUninit)
    {
      hide DiscardsSafe, Complete, ReadBits, SameBits, Read, ClearIn, SetIn, Unmarked;
      ghost var bits, m := inodeMap, Marks(uninit, fixUninit);
      assert DiscardsSafe() by {
        NoneDiscarded();
      }
      redone := false;
      while true
        invariant DiscardsSafe() && inodeMap == (if redone then used + padding else bits)
        invariant redone ==> fixMap && !SameBits(ReadBits(bits, m), used, 1, Start(groups))
        invariant (discardOn ==> old(discardOn)) && (!redone ==> uninit == m.uninit && discardOn == old(discardOn))
        invariant redone ==> forall g: nat :: g in uninit <==> g in m.uninit && !Unmarked(g, fixUninit)
        decreases !redone
      {
        var had;
        ghost var seen;
        had, freeInodes, seen := Scan(redone, fixUninit, free, dirCounts);
        SeenIsScanned(seen, redone, bits, m);
        SameCountsOf(seen, Scanned(redone, bits, m), free, dirCounts, freeInodes);
        if !had || !fixMap {
          return;
        }
        inodeMap := used + padding;
        redone := true;
      }
    }

    lemma {:induction false} NoneDiscarded()
      requires Geometry() && discards == [] && !refused
      ensures DiscardsSafe()
    {
    }

    lemma {:induction false} SeenIsScanned(seen: set<nat>, redone: bool, bits: set<nat>, m: Marks)
      requires if redone then SameBits(seen, used, 1, Start(groups)) else Read(seen, bits, m, Start(groups))
      ensures SameBits(seen, Scanned(redone, bits, m), 1, Start(groups))
      ensures SameBits(seen, used, 1, Start(groups)) <==> SameBits(Scanned(redone, bits, m), used, 1, Start(groups))
    {
      if !redone {
        ReadIsReadBits(seen, bits, m);
      }
    }

    /** If the bits read are the inodes in use, so is the bitmap in every group whose bitmap counts. */
    lemma {:induction false} ReadIsFaithful(bits: set<nat>, m: Marks)
      requires SameBits(ReadBits(bits, m), used, 1, Start(groups))
      ensures Faithful(used, bits, m.uninit, Start(groups))
    {
      forall g: nat, x: nat | g < groups && !(csum && g in m.uninit) && InGroup(g, x) && x < Start(groups)
        ensures x in used <==> x in bits
      {
        assert x >= 1 && !Shut(m, g, x);
      }
    }

    lemma {:induction false} ReplacedIsFaithful(skipped: set<nat>)
      requires Geometry() && inodeMap == used + padding
      ensures Faithful(used, inodeMap, skipped, Start(groups)) && SameBits(inodeMap, used, 1, Start(groups))
    {
    }

    /** The total is the sum over the groups. */
    lemma {:induction false} TotalIsSum(bits: set<nat>, free: seq<nat>)
      requires forall g :: 0 <= g < |free| ==> free[g] == ClearIn(bits, Start(g), Start(g + 1))
      ensures Sum(free) == ClearIn(bits, 1, Start(|free|))
      decreases |free|
    {
      if |free| > 0 {
        var g := |free| - 1;
        TotalIsSum(bits, free[..g]);
        NextGroup(1, ipg, g);
        StartPositive(g);
        ClearSplit(bits, 1, Start(g), Start(g + 1));
      }
    }

    lemma {:induction false} StartPositive(g: nat)
      ensures Start(g) >= 1
      decreases g
    {
      if g > 0 {
        StartPositive(g - 1);
        NextGroup(1, ipg, g - 1);
      }
    }

    /** Compare the counts with the descriptors and the superblock, and store what is accepted. */
    method StoreCounts(free: array<nat>, dirCounts: array<nat>, freeInodes: nat, bgFree: array<nat>, bgDirs: array<nat>,
                       superFree: nat, fixFree: set<nat>, fixDirs: set<nat>, fixTotal: bool) returns (superFree': nat)
      requires free.Length == dirCounts.Length == bgFree.Length == bgDirs.Length == groups
      requires bgFree != bgDirs && free !in {bgFree, bgDirs} && dirCounts !in {bgFree, bgDirs}
      modifies bgFree, bgDirs
      ensures forall g :: 0 <= g < groups ==> bgFree[g] == if g in fixFree then free[g] else old(bgFree[g])
      ensures forall g :: 0 <= g < groups ==> bgDirs[g] == if g in fixDirs then dirCounts[g] else old(bgDirs[g])
      ensures superFree' == if fixTotal then freeInodes else superFree
    {
      for g := 0 to groups
        invariant forall k :: 0 <= k < groups ==> bgFree[k] == if k < g && k in fixFree then free[k] else old(bgFree[k])
        invariant forall k :: 0 <= k < groups ==>
                    bgDirs[k] == if k < g && k in fixDirs then dirCounts[k] else old(bgDirs[k])
      {
        if free[g] != bgFree[g] && g in fixFree {
          bgFree[g] := free[g];
        }
        if dirCounts[g] != bgDirs[g] && g in fixDirs {
          bgDirs[g] := dirCounts[g];
        }
      }
      superFree' := superFree;
      if freeInodes != superFree && fixTotal {
        superFree' := freeInodes;
      }
    }

    /** check_inode_bitmaps.  No block of an inode table that holds an inode in use is ever discarded.
        The bitmap is replaced, and the counting repeated, exactly when the bits read of it were wrong
        and the repair is accepted; the counts that are stored are those of the bits read, or of the
        inodes in use once it has been replaced, and the total is the sum over the groups.  Unless the
        bits read are wrong to the end, the bitmap agrees with the inodes in use in every group whose
        bitmap counts.  If discarding is still on at the end, every block of an inode table without an
        inode in use has been discarded, and it is still on if nothing was wrong, the file system
        unchanged and the device willing; a refusal switches it off. */
    method CheckInodeBitmaps(fixMap: bool, fixUninit: set<nat>, bgFree: array<nat>, bgDirs: array<nat>, superFree: nat,
                             fixFree: set<nat>, fixDirs: set<nat>, fixTotal: bool)
      returns (redone: bool, superFree': nat)
      requires Geometry() && discards == [] && !refused && bgFree.Length == bgDirs.Length == groups && bgFree != bgDirs
      modifies this`inodeMap, this`uninit, this`discardOn, this`discards, this`refused, bgFree, bgDirs
      ensures DiscardsSafe() && (discardOn ==> old(discardOn) && Willing())
      ensures discardOn && zeroes ==>
                forall g: nat, t: nat :: g < groups && t * ipb + ipb <= ipg && Unused(g, t) ==> Discarded(g, t)
      ensures var m := Marks(old(uninit), fixUninit);
              var right := SameBits(ReadBits(old(inodeMap), m), used, 1, Start(groups));
              var bits := Scanned(redone, old(inodeMap), m);
              && (redone <==> fixMap && !right)
              && (Willing() && !fsChanged && right ==> discardOn == old(discardOn))
              && (redone || right ==>
                    SameBits(bits, used, 1, Start(groups)) && Faithful(used, inodeMap, old(uninit), Start(groups)))
              && (forall g :: 0 <= g < groups ==>
                    bgFree[g] == if g in fixFree then ClearIn(bits, Start(g), Start(g + 1)) else old(bgFree[g]))
              && (forall g :: 0 <= g < groups ==>
                    bgDirs[g] == if g in fixDirs then SetIn(bits * dirs, Start(g), Start(g + 1)) else old(bgDirs[g]))
              && superFree' == if fixTotal then ClearIn(bits, 1, Start(groups)) else superFree
      ensures inodeMap == if redone then used + padding else old(inodeMap)
      ensures redone ==> SameBits(inodeMap, used, 1, Start(groups))
      ensures forall g: nat :: g in uninit <==>
                g in old(uninit) && !(csum && g < groups && exists x :: InGroup(g, x) && x in used && x in fixUninit)
      ensures fixTotal && (forall g :: 0 <= g < groups ==> g in fixFree) ==> superFree' == Sum(bgFree[..])
    {
      hide Faithful, DiscardsSafe, Willing, ClearIn, SetIn, ReadBits, SameBits;
      ghost var m, bits := Marks(uninit, fixUninit), inodeMap;
      var free, dirCounts := new nat[groups], new nat[groups];
      var freeInodes;
      redone, freeInodes := Reconcile(fixMap, fixUninit, free, dirCounts);
      Refusals();
      if redone {
        ReplacedIsFaithful(m.uninit);
        SameAsItself(used);
      } else if SameBits(ReadBits(bits, m), used, 1, Start(groups)) {
        ReadIsFaithful(bits, m);
      }
      superFree' := StoreCounts(free, dirCounts, freeInodes, bgFree, bgDirs, superFree, fixFree, fixDirs, fixTotal);
      if forall g :: 0 <= g < groups ==> g in fixFree {
        TotalIsSum(Scanned(redone, bits, m), bgFree[..]);
      }
    }

    lemma {:induction false} Refusals()
      requires Geometry() && DiscardsSafe()
      ensures refused == !Willing() && (discardOn ==> !refused)
    {
    }

    lemma {:induction false} SameAsItself(bits: set<nat>)
      ensures SameBits(bits, bits, 1, Start(groups))
    {
    }
  }

  /** Groups marked as having no inode in use, and the inodes at which clearing the mark is accepted. */
  datatype Marks = Marks(uninit: set<nat>, cleared: set<nat>)

  /** The running counts of the scan. */
  datatype Tally = Tally(freeInodes: nat, groupFree: nat, groupDirs: nat)

  /** The scan's variables: the inode to look at, the group, how many inodes of it are done, the
      first of the open run, the counts, and whether the group is taken to be empty. */
  datatype Scanner = Scanner(i: nat, group: nat, inodes: nat, firstFree: nat, t: Tally, skip: bool, had: bool)
}

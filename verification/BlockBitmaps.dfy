/**
  Pass 5 on the block bitmaps: compare the bitmap on disk with the blocks found in use, offer to
  replace it, count the free blocks of each group, and discard runs of free blocks on the way.
  One block per cluster.
 */
module BlockBitmaps {
  import opened Bits

  /** A run of blocks handed to the device for discarding. */
  datatype Run = Run(start: nat, count: nat)

  class Pass5 {
    const first: nat              // s_first_data_block
    const count: nat              // s_blocks_count
    const per: nat                // s_clusters_per_group
    const groups: nat             // group_desc_count
    const found: set<nat>         // block_found_map
    const padding: set<nat>       // the bits past the end that ext2fs_set_bitmap_padding sets
    var blockMap: set<nat>        // fs->block_map
    var discardOn: bool           // E2F_OPT_DISCARD
    const fsChanged: bool         // ext2fs_test_changed
    const willing: nat -> bool    // whether the device carries out discard number k
    var discards: seq<Run>
    ghost var refused: bool       // the device has refused a discard
    const bgFree: array<nat>      // free block count of each group descriptor
    var superFree: nat            // free block count of the superblock

    ghost predicate Geometry()
    {
      && per > 0 && per % 8 == 0
      && first < count
      && groups > 0
      && GroupStart(first, per, groups - 1) < count <= GroupStart(first, per, groups)
      && bgFree.Length == groups
      && (forall b :: b in padding ==> b >= count)
    }

    ghost predicate Harmless(r: Run)
    {
      r.count > 0 && AllClear(found, r.start, r.start + r.count)
    }

    /** No block in use has been handed to the device, and none at all if the file system was changed;
        and if discarding is on the device has refused none. */
    ghost predicate DiscardsSafe()
      reads this`discardOn, this`discards, this`refused
    {
      && (forall i :: 0 <= i < |discards| ==> Harmless(discards[i])) && (fsChanged ==> discards == [])
      && refused == !Willing() && (discardOn ==> !refused)
    }

    /** The device has carried out every discard so far. */
    ghost predicate Willing()
      reads this`discards
    {
      forall i: nat :: i < |discards| ==> willing(i)
    }

    ghost predicate Covers(r: Run, b: nat)
    {
      r.start <= b < r.start + r.count
    }

    /** Block `b` has been handed to the device. */
    ghost predicate Discarded(b: nat)
      reads this`discards
    {
      exists i :: 0 <= i < |discards| && Covers(discards[i], b)
    }

    /** As long as discarding is on, every clear block before `i` and before the open run has been
        handed to the device. */
    ghost predicate Thorough(bits: set<nat>, i: nat, firstFree: nat)
      reads this`discardOn, this`discards
    {
      discardOn ==> forall b :: first <= b < i && b < firstFree && b !in bits ==> Discarded(b)
    }

    constructor (first: nat, count: nat, per: nat, groups: nat, found: set<nat>, padding: set<nat>,
                 blockMap: set<nat>, discardOn: bool, fsChanged: bool, willing: nat -> bool, bgFree: array<nat>,
                 superFree: nat)
      ensures this.first == first && this.count == count && this.per == per && this.groups == groups
      ensures this.found == found && this.padding == padding && this.blockMap == blockMap
      ensures this.discardOn == discardOn && this.fsChanged == fsChanged && this.willing == willing && discards == []
              && !refused
      ensures this.bgFree == bgFree && this.superFree == superFree
    {
      this.first, this.count, this.per, this.groups := first, count, per, groups;
      this.found, this.padding, this.blockMap := found, padding, blockMap;
      this.discardOn, this.fsChanged, this.willing, this.discards := discardOn, fsChanged, willing, [];
      this.bgFree, this.superFree, refused := bgFree, superFree, false;
    }

    /** e2fsck_discard_blocks */
    method DiscardBlocks(start: nat, n: nat)
      requires DiscardsSafe() && n > 0 && (discardOn ==> AllClear(found, start, start + n))
      modifies this`discardOn, this`discards, this`refused
      ensures DiscardsSafe() && discardOn == (old(discardOn) && !fsChanged && willing(|old(discards)|))
      ensures (old(refused) ==> refused) && (!refused && !fsChanged ==> discardOn == old(discardOn))
      ensures discards == if old(discardOn) && !fsChanged then old(discards) + [Run(start, n)] else old(discards)
      ensures discardOn ==> !fsChanged
      ensures discardOn ==> forall b: nat :: old(Discarded(b)) || start <= b < start + n ==> Discarded(b)
    {
      if fsChanged {
        discardOn := false;
      }
      if discardOn {
        ghost var was := discards;
        discards := discards + [Run(start, n)];
        OneMoreRun(was, Run(start, n));
        if !willing(|discards| - 1) {
          discardOn, refused := false, true;
        }
      }
    }

    lemma {:induction false} OneMoreRun(was: seq<Run>, r: Run)
      requires discards == was + [r]
      ensures forall b: nat :: (exists i :: 0 <= i < |was| && Covers(was[i], b)) || Covers(r, b) ==> Discarded(b)
    {
      forall b: nat | (exists i :: 0 <= i < |was| && Covers(was[i], b)) || Covers(r, b) ensures Discarded(b) {
        if i :| 0 <= i < |was| && Covers(was[i], b) {
          assert Covers(discards[i], b);
        } else {
          assert Covers(discards[|was|], b);
        }
      }
    }

    /** The bitmap a scan goes by: the one on disk, or, once that has been replaced, the blocks
        found in use. */
    ghost function Scanned(redo: bool): set<nat>
      reads this`blockMap
    {
      if redo then found else blockMap
    }

    /** Where the scan stands when it is about to look at block `i`. */
    ghost predicate At(i: nat, group: nat, blocks: nat)
    {
      if i < count then group < groups && blocks < per && i == GroupStart(first, per, group) + blocks
      else i == count && group == groups && blocks == 0
    }

    /** The counts are right for everything before block `i`. */
    ghost predicate Counted(bits: set<nat>, i: nat, group: nat, groupFree: nat, freeBlocks: nat, free: array<nat>)
      reads free
    {
      && free.Length == groups && group <= groups
      && (forall g :: 0 <= g < group ==> free[g] == ClearInGroup(bits, first, per, count, g))
      && freeBlocks == ClearIn(bits, first, i)
      && groupFree == (if i < count then ClearIn(bits, GroupStart(first, per, group), i) else 0)
    }

    /** A run of free blocks is open from `firstFree` on, or none is (firstFree == count). */
    ghost predicate OpenRun(bits: set<nat>, firstFree: nat, i: nat)
    {
      firstFree == count || (first <= firstFree < i && AllClear(bits, firstFree, i))
    }

    ghost predicate Trusted(bits: set<nat>, i: nat)
      reads this`discardOn
    {
      discardOn ==> SameBits(bits, found, first, i)
    }

    /** The end of a group, reached with block `i` as its last one. */
    lemma {:induction false} GroupDone(bits: set<nat>, i: nat, group: nat)
      requires Geometry() && first <= i < count && group < groups && GroupStart(first, per, group) <= i
      requires i + 1 == GroupStart(first, per, group) + per || i + 1 == count
      requires i + 1 <= GroupStart(first, per, group) + per
      ensures ClearIn(bits, GroupStart(first, per, group), i + 1) == ClearInGroup(bits, first, per, count, group)
      ensures At(i + 1, group + 1, 0)
    {
      NextGroup(first, per, group);
      if i + 1 == count {
        LastGroup(group);
      } else {
        StillGroups(group);
      }
    }

    lemma {:induction false} LastGroup(g: nat)
      requires Geometry() && GroupStart(first, per, g) < count <= GroupStart(first, per, g + 1)
      ensures g + 1 == groups
    {
      if g + 1 < groups {
        Monotone(g + 1, groups - 1);
        assert false;
      }
      if groups < g + 1 {
        Monotone(groups, g);
        assert false;
      }
    }

    lemma {:induction false} StillGroups(g: nat)
      requires Geometry() && GroupStart(first, per, g + 1) < count
      ensures g + 1 < groups
    {
      if groups <= g + 1 {
        Monotone(groups, g + 1);
        assert false;
      }
    }

    lemma {:induction false} Monotone(a: nat, b: nat)
      requires a <= b
      ensures GroupStart(first, per, a) <= GroupStart(first, per, b)
    {
      assert b * per == a * per + (b - a) * per;
    }

    lemma {:induction false} BeforeTheLast(g: nat)
      requires Geometry() && g < groups && g != groups - 1
      ensures GroupStart(first, per, g) + per < count
    {
      NextGroup(first, per, g);
      Monotone(g + 1, groups - 1);
    }

    lemma {:induction false} StartsGroup(i: nat, group: nat, blocks: nat)
      requires Geometry() && i < count && At(i, group, blocks)
      ensures first <= GroupStart(first, per, group) <= i
      ensures (i - first) % per == 0 <==> blocks == 0
    {
      InGroup(first, per, group, blocks);
    }

    /** One block, compared and counted on its own; `firstFree` is carried along. */
    method ScanBlock(i: nat, redo: bool, last: bool, firstFree: nat)
      returns (bitmap: bool, mismatch: bool, firstFree': nat)
      requires Geometry() && DiscardsSafe() && first <= i < count
      requires OpenRun(Scanned(redo), firstFree, i) && Trusted(Scanned(redo), i)
               && Thorough(Scanned(redo), i, firstFree)
      modifies this`discardOn, this`discards, this`refused
      ensures DiscardsSafe() && (discardOn ==> old(discardOn)) && (old(refused) ==> refused)
      ensures Thorough(Scanned(redo), i + 1, firstFree')
      ensures !refused && !fsChanged && !mismatch ==> discardOn == old(discardOn)
      ensures bitmap == (i in Scanned(redo)) && mismatch == ((i in Scanned(redo)) != (i in found))
      ensures Trusted(Scanned(redo), i + 1)
      ensures if last then firstFree' == count else OpenRun(Scanned(redo), firstFree', i + 1)
    {
      var actual := i in found;
      bitmap := if redo then actual else i in blockMap;
      mismatch := actual != bitmap;
      if mismatch {
        discardOn := false;
      }
      firstFree' := firstFree;
      if !bitmap {
        if firstFree' > i {
          firstFree' := i;
        }
      } else if i > firstFree' {
        DiscardBlocks(firstFree', i - firstFree');
        firstFree' := count;
      }
      if last {
        if !bitmap && i >= firstFree' {
          DiscardBlocks(firstFree', i - firstFree' + 1);
        }
        firstFree' := count;
      }
    }

    /** The bookkeeping at the end of a group, whose last block is `i`. */
    method CloseGroup(i: nat, group: nat, groupFree: nat, freeBlocks: nat, free: array<nat>, ghost bits: set<nat>)
      requires Geometry() && first <= i < count && group < groups && free.Length == groups
      requires GroupStart(first, per, group) <= i
      requires i + 1 == GroupStart(first, per, group) + per || i + 1 == count
      requires i + 1 <= GroupStart(first, per, group) + per
      requires forall g :: 0 <= g < group ==> free[g] == ClearInGroup(bits, first, per, count, g)
      requires groupFree == ClearIn(bits, GroupStart(first, per, group), i + 1)
      requires freeBlocks == ClearIn(bits, first, i + 1)
      modifies free
      ensures At(i + 1, group + 1, 0) && Counted(bits, i + 1, group + 1, 0, freeBlocks, free)
    {
      GroupDone(bits, i, group);
      free[group] := groupFree;
    }

    /** A whole group in which the two bitmaps agree, taken at once. */
    method TakeGroup(i: nat, group: nat, freeBlocks: nat, free: array<nat>, ghost bits: set<nat>)
      returns (freeBlocks': nat)
      requires Geometry() && first <= i && At(i, group, 0) && group != groups - 1 && !discardOn
      requires Counted(bits, i, group, 0, freeBlocks, free) && i < count && SameBits(found, bits, i, i + per)
      modifies free
      ensures i + per < count && At(i + per, group + 1, 0) && Counted(bits, i + per, group + 1, 0, freeBlocks', free)
      ensures SameBits(bits, found, first, i + per) == SameBits(bits, found, first, i)
    {
      hide ClearInGroup, SetIn;
      BeforeTheLast(group);
      WholeGroup(bits, i, i + per);
      SameBitsJoin(bits, found, first, i, i + per);
      var groupFree := per - SetIn(found, i, i + per);
      freeBlocks' := freeBlocks + groupFree;
      CloseGroup(i + per - 1, group, groupFree, freeBlocks', free, bits);
    }

    /** One round of the counting loop.  Whole groups are taken at once where the two bitmaps
        agree and nothing is to be discarded; the counts come out as if every block had been
        looked at. */
    method Scan(redo: bool, free: array<nat>) returns (had: bool, freeBlocks: nat)
      requires Geometry() && DiscardsSafe() && free.Length == groups
      requires redo ==> SameBits(blockMap, found, first, count)
      modifies this`discardOn, this`discards, this`refused, free
      ensures DiscardsSafe() && Thorough(Scanned(redo), count, count) && (discardOn ==> old(discardOn))
              && (old(refused) ==> refused)
      ensures !refused && !fsChanged && !had ==> discardOn == old(discardOn)
      ensures had ==> !discardOn
      ensures forall g :: 0 <= g < groups ==> free[g] == ClearInGroup(Scanned(redo), first, per, count, g)
      ensures freeBlocks == ClearIn(Scanned(redo), first, count)
      ensures had <==> !SameBits(Scanned(redo), found, first, count)
    {
      hide DiscardsSafe, Discarded, Willing, ClearInGroup, SetIn;
      ghost var bits := Scanned(redo);
      var i, group, blocks, groupFree, firstFree := first, 0, 0, 0, count;
      had, freeBlocks := false, 0;
      while i < count
        invariant first <= i && At(i, group, blocks)
        invariant Counted(bits, i, group, groupFree, freeBlocks, free)
        invariant OpenRun(bits, firstFree, i) && Trusted(bits, i) && DiscardsSafe() && Thorough(bits, i, firstFree)
        invariant (discardOn ==> old(discardOn)) && (old(refused) ==> refused)
        invariant !refused && !fsChanged && !had ==> discardOn == old(discardOn)
        invariant i == count ==> firstFree == count
        invariant had <==> !SameBits(bits, found, first, i)
        decreases count - i
      {
        StartsGroup(i, group, blocks);
        var firstInGroup := (i - first) % per == 0;
        var readable: bool := *;
        if firstInGroup && group != groups - 1 && !discardOn && readable && SameBits(found, blockMap, i, i + per) {
          freeBlocks := TakeGroup(i, group, freeBlocks, free, bits);
          i, firstFree := i + per - 1, count;
          group, blocks, groupFree := group + 1, 0, 0;
        } else {
          blocks := blocks + 1;
          var last := blocks == per || i == count - 1;
          var bitmap, mismatch;
          bitmap, mismatch, firstFree := ScanBlock(i, redo, last, firstFree);
          SameBitsJoin(bits, found, first, i, i + 1);
          had := had || mismatch;
          if !bitmap {
            groupFree, freeBlocks := groupFree + 1, freeBlocks + 1;
          }
          if last {
            CloseGroup(i, group, groupFree, freeBlocks, free, bits);
            group, blocks, groupFree := group + 1, 0, 0;
          }
        }
        i := i + 1;
      }
    }

    /** Taking a group at once: what the set bits leave over is what counting would have found. */
    lemma {:induction false} WholeGroup(bits: set<nat>, i: nat, next: nat)
      requires first <= i <= next && SameBits(found, bits, i, next)
      ensures ClearIn(bits, i, next) == next - i - SetIn(found, i, next)
      ensures ClearIn(bits, first, next) == ClearIn(bits, first, i) + ClearIn(bits, i, next)
    {
      SameCounts(found, bits, i, next);
      SetAndClear(bits, i, next);
      ClearSplit(bits, first, i, next);
    }

    /** The total is the sum over the groups. */
    lemma {:induction false} TotalIsSum(bits: set<nat>, free: seq<nat>)
      requires Geometry() && |free| <= groups
      requires forall g :: 0 <= g < |free| ==> free[g] == ClearInGroup(bits, first, per, count, g)
      ensures Sum(free) == ClearIn(bits, first, Min(GroupStart(first, per, |free|), count))
      decreases |free|
    {
      if |free| > 0 {
        var g := |free| - 1;
        TotalIsSum(bits, free[..g]);
        NextGroup(first, per, g);
        Monotone(g, groups - 1);
        var lo, hi := GroupStart(first, per, g), Min(GroupStart(first, per, g + 1), count);
        ClearSplit(bits, first, lo, hi);
      }
    }

    /** Count, and after an accepted repair count again: there is at most one second round. */
    method Reconcile(fixMap: bool, free: array<nat>) returns (redone: bool, freeBlocks: nat)
      requires Geometry() && DiscardsSafe() && free.Length == groups
      modifies this`blockMap, this`discardOn, this`discards, this`refused, free
      ensures DiscardsSafe() && Thorough(found, count, count) && (discardOn ==> old(discardOn))
      ensures !refused && !fsChanged && SameBits(old(blockMap), found, first, count) ==> discardOn == old(discardOn)
      ensures redone <==> fixMap && !SameBits(old(blockMap), found, first, count)
      ensures blockMap == if redone then found + padding else old(blockMap)
      ensures forall g :: 0 <= g < groups ==> free[g] == ClearInGroup(Scanned(redone), first, per, count, g)
      ensures freeBlocks == ClearIn(Scanned(redone), first, count)
    {
      redone := false;
      while true
        invariant DiscardsSafe() && blockMap == (if redone then found + padding else old(blockMap))
        invariant redone ==> fixMap && !SameBits(old(blockMap), found, first, count)
        invariant (discardOn ==> old(discardOn)) && (!redone ==> discardOn == old(discardOn))
        decreases !redone
      {
        var had;
        had, freeBlocks := Scan(redone, free);
        StillThorough(redone, had);
        if !had || !fixMap {
          return;
        }
        blockMap := found + padding;
        redone := true;
      }
    }

    lemma {:induction false} StillThorough(redo: bool, had: bool)
      requires Thorough(Scanned(redo), count, count) && (had ==> !discardOn)
      requires had <==> !SameBits(Scanned(redo), found, first, count)
      ensures Thorough(found, count, count)
    {
    }

    /** Within the file system the replaced bitmap counts as the blocks found do. */
    lemma {:induction false} ReplacedCounts(bits: set<nat>, g: nat)
      requires Geometry() && bits == found + padding
      ensures ClearInGroup(bits, first, per, count, g) == ClearInGroup(found, first, per, count, g)
      ensures ClearIn(bits, first, count) == ClearIn(found, first, count)
    {
      SameCounts(bits, found, GroupStart(first, per, g), Min(GroupStart(first, per, g + 1), count));
      SameCounts(bits, found, first, count);
    }

    /** check_block_bitmaps.  Whatever the bitmaps hold, no block in use is discarded; the bitmap
        is replaced, and the counting repeated, exactly when it was wrong and the repair is
        accepted; and the counts that are stored are those of the bitmap that stays.  If discarding
        is still on at the end, every free block has been discarded, and it is still on if the bitmap
        was right, the file system unchanged and the device willing; a refusal switches it off. */
    method CheckBlockBitmaps(fixMap: bool, fixGroup: set<nat>, fixTotal: bool) returns (redone: bool)
      requires Geometry() && discards == [] && !refused
      modifies this`blockMap, this`discardOn, this`discards, this`refused, this`superFree, bgFree
      ensures DiscardsSafe() && (discardOn ==> old(discardOn) && Willing())
      ensures discardOn ==> forall b :: first <= b < count && b !in found ==> Discarded(b)
      ensures Willing() && !fsChanged && SameBits(old(blockMap), found, first, count) ==> discardOn == old(discardOn)
      ensures redone <==> fixMap && !SameBits(old(blockMap), found, first, count)
      ensures blockMap == if redone then found + padding else old(blockMap)
      ensures fixMap ==> SameBits(blockMap, found, first, count)
      ensures forall g :: 0 <= g < groups ==>
                bgFree[g] == if g in fixGroup then ClearInGroup(blockMap, first, per, count, g) else old(bgFree[g])
      ensures superFree == if fixTotal then ClearIn(blockMap, first, count) else old(superFree)
      ensures fixTotal && (forall g :: 0 <= g < groups ==> g in fixGroup) ==> superFree == Sum(bgFree[..])
    {
      var free := new nat[groups];
      var freeBlocks;
      redone, freeBlocks := Reconcile(fixMap, free);
      if redone {
        forall g | 0 <= g < groups ensures free[g] == ClearInGroup(blockMap, first, per, count, g) {
          ReplacedCounts(blockMap, g);
        }
        ReplacedCounts(blockMap, 0);
      }
      StoreCounts(free, freeBlocks, fixGroup, fixTotal);
      if fixTotal && forall g :: 0 <= g < groups ==> g in fixGroup {
        TotalIsSum(blockMap, bgFree[..]);
      }
    }

    /** Compare the counts with the descriptors and the superblock, and store what is accepted. */
    method StoreCounts(free: array<nat>, freeBlocks: nat, fixGroup: set<nat>, fixTotal: bool)
      requires free.Length == groups == bgFree.Length && free != bgFree
      modifies this`superFree, bgFree
      ensures forall g :: 0 <= g < groups ==> bgFree[g] == if g in fixGroup then free[g] else old(bgFree[g])
      ensures superFree == if fixTotal then freeBlocks else old(superFree)
    {
      for g := 0 to groups
        invariant superFree == old(superFree)
        invariant forall k :: 0 <= k < groups ==>
                    bgFree[k] == if k < g && k in fixGroup then free[k] else old(bgFree[k])
      {
        if free[g] != bgFree[g] && g in fixGroup {
          bgFree[g] := free[g];
        }
      }
      if freeBlocks != superFree && fixTotal {
        superFree := freeBlocks;
      }
    }
  }
}

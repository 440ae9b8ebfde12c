/**
  Rebuilding an inode's extent tree in pass 1E: the leaf extents (or the block map) are read
  into a list and coalesced greedily, then split at the format's limits and written out again.
  Block numbers are at most 48 bits wide and lengths 32, so their 64-bit sums do not wrap; the
  32-bit sum of two lengths does, and is modelled as it is computed.
 */
module Extents {
  import opened Widths

  const INIT_MAX_LEN: nat := 32768     // EXT_INIT_MAX_LEN
  const UNINIT_MAX_LEN: nat := 32767   // EXT_UNINIT_MAX_LEN

  /** An extent of the list; of its flags only UNINIT survives into what is written. */
  datatype Extent = Extent(pblk: nat, lblk: nat, len: nat, uninit: bool)

  /** What one step through the old extent tree yields. */
  datatype Visit = SecondVisit | Interior(blk: nat) | Leaf(e: Extent)

  /** What one step of the block iterator yields; a negative count is an indirect block. */
  datatype MapBlock = MapBlock(count: int, blk: nat)

  // ---------------------------------------------------------------- meaning

  datatype Mapping = Mapping(lblk: nat, pblk: nat, uninit: bool)

  function ExpandOne(e: Extent): seq<Mapping>
  {
    seq(e.len, i requires 0 <= i => Mapping(e.lblk + i, e.pblk + i, e.uninit))
  }

  /** The blocks a list of extents maps, in order. */
  function Expand(es: seq<Extent>): seq<Mapping>
  {
    if es == [] then [] else ExpandOne(es[0]) + Expand(es[1..])
  }

  function Total(es: seq<Extent>): nat
  {
    if es == [] then 0 else es[0].len + Total(es[1..])
  }

  lemma {:induction false} ExpandAppend(a: seq<Extent>, b: seq<Extent>)
    ensures Expand(a + b) == Expand(a) + Expand(b)
    ensures Total(a + b) == Total(a) + Total(b)
  {
    if a == [] {
      assert a + b == b;
    } else {
      assert (a + b)[1..] == a[1..] + b;
      ExpandAppend(a[1..], b);
    }
  }

  lemma {:induction false} ExpandLength(es: seq<Extent>)
    ensures |Expand(es)| == Total(es)
  {
    if es != [] {
      ExpandLength(es[1..]);
    }
  }

  lemma {:induction false} ExpandSplit(e: Extent, n: nat)
    requires n <= e.len
    ensures ExpandOne(e) == ExpandOne(e.(len := n)) + ExpandOne(Extent(e.pblk + n, e.lblk + n, e.len - n, e.uninit))
  {
  }

  // ---------------------------------------------------------------- coalescing

  /** The sum of two 32-bit lengths, as the code computes it. */
  function Sum32(a: nat, b: nat): nat
  {
    (a + b) % U32
  }

  /** The test of load_extents.  Its last conjunct was meant to refuse a merge that overflows;
      the sum it looks at has already been reduced to 32 bits. */
  predicate Adjoins(last: Extent, e: Extent)
  {
    && last.pblk + last.len == e.pblk
    && last.lblk + last.len == e.lblk
    && last.uninit == e.uninit
    && Sum32(last.len, e.len) < U32
  }

  function Attach(acc: seq<Extent>, e: Extent): seq<Extent>
  {
    if acc != [] && Adjoins(acc[|acc| - 1], e)
    then acc[..|acc| - 1] + [acc[|acc| - 1].(len := Sum32(acc[|acc| - 1].len, e.len))]
    else acc + [e]
  }

  function AttachAll(acc: seq<Extent>, es: seq<Extent>): seq<Extent>
    decreases |es|
  {
    if es == [] then acc else AttachAll(Attach(acc, es[0]), es[1..])
  }

  function Coalesce(es: seq<Extent>): seq<Extent>
  {
    AttachAll([], es)
  }

  function Leaves(vs: seq<Visit>): seq<Extent>
  {
    if vs == [] then []
    else if vs[|vs| - 1].Leaf? then Leaves(vs[..|vs| - 1]) + [vs[|vs| - 1].e]
    else Leaves(vs[..|vs| - 1])
  }

  function Interiors(vs: seq<Visit>): seq<nat>
  {
    if vs == [] then []
    else if vs[|vs| - 1].Interior? then Interiors(vs[..|vs| - 1]) + [vs[|vs| - 1].blk]
    else Interiors(vs[..|vs| - 1])
  }

  lemma {:induction false} AttachAllAppend(acc: seq<Extent>, a: seq<Extent>, b: seq<Extent>)
    ensures AttachAll(acc, a + b) == AttachAll(AttachAll(acc, a), b)
    decreases |a|
  {
    if a == [] {
      assert a + b == b;
    } else {
      assert (a + b)[1..] == a[1..] + b;
      AttachAllAppend(Attach(acc, a[0]), a[1..], b);
    }
  }

  lemma {:induction false} NothingCoalesced()
    ensures Coalesce([]) == []
  {
  }

  lemma {:induction false} CoalesceOneMore(es: seq<Extent>, e: Extent)
    ensures Coalesce(es + [e]) == Attach(Coalesce(es), e)
  {
    AttachAllAppend([], es, [e]);
    assert AttachAll(Coalesce(es), [e]) == AttachAll(Attach(Coalesce(es), e), []);
  }

  // The same thing with unbounded lengths, to say when the code is right.

  predicate Follows(last: Extent, e: Extent)
  {
    last.pblk + last.len == e.pblk && last.lblk + last.len == e.lblk && last.uninit == e.uninit
  }

  function Join(acc: seq<Extent>, e: Extent): seq<Extent>
  {
    if acc != [] && Follows(acc[|acc| - 1], e)
    then acc[..|acc| - 1] + [acc[|acc| - 1].(len := acc[|acc| - 1].len + e.len)]
    else acc + [e]
  }

  /** The maximal runs of extents that follow one another. */
  function Runs(acc: seq<Extent>, es: seq<Extent>): seq<Extent>
    decreases |es|
  {
    if es == [] then acc else Runs(Join(acc, es[0]), es[1..])
  }

  predicate Fits(es: seq<Extent>)
  {
    forall i :: 0 <= i < |es| ==> es[i].len < U32
  }

  /** Every run of adjoining extents covers fewer than 2^32 blocks. */
  predicate RunsFit(es: seq<Extent>)
  {
    Fits(Runs([], es))
  }

  lemma {:induction false} ExpandSingle(e: Extent)
    ensures Expand([e]) == ExpandOne(e) && Total([e]) == e.len
  {
  }

  lemma {:induction false} ExpandLast(front: seq<Extent>, e: Extent)
    ensures Expand(front + [e]) == Expand(front) + ExpandOne(e)
  {
    ExpandAppend(front, [e]);
    ExpandSingle(e);
  }

  lemma {:induction false} FollowersExpand(last: Extent, e: Extent)
    requires Follows(last, e)
    ensures ExpandOne(last.(len := last.len + e.len)) == ExpandOne(last) + ExpandOne(e)
  {
  }

  lemma {:induction false} JoinLast(front: seq<Extent>, last: Extent, e: Extent)
    requires Follows(last, e)
    ensures Expand(front + [last.(len := last.len + e.len)]) == Expand(front + [last]) + ExpandOne(e)
  {
    calc {
      Expand(front + [last.(len := last.len + e.len)]);
      { ExpandLast(front, last.(len := last.len + e.len)); }
      Expand(front) + ExpandOne(last.(len := last.len + e.len));
      { FollowersExpand(last, e); }
      Expand(front) + (ExpandOne(last) + ExpandOne(e));
      Expand(front) + ExpandOne(last) + ExpandOne(e);
      { ExpandLast(front, last); }
      Expand(front + [last]) + ExpandOne(e);
    }
  }

  lemma {:induction false} JoinKeepsMeaning(acc: seq<Extent>, e: Extent)
    ensures Expand(Join(acc, e)) == Expand(acc) + ExpandOne(e)
  {
    ExpandSingle(e);
    if acc != [] && Follows(acc[|acc| - 1], e) {
      JoinLast(acc[..|acc| - 1], acc[|acc| - 1], e);
      assert acc == acc[..|acc| - 1] + [acc[|acc| - 1]];
    } else {
      ExpandAppend(acc, [e]);
    }
  }

  lemma {:induction false} RunsKeepMeaning(acc: seq<Extent>, es: seq<Extent>)
    ensures Expand(Runs(acc, es)) == Expand(acc) + Expand(es)
    decreases |es|
  {
    if es != [] {
      JoinKeepsMeaning(acc, es[0]);
      RunsKeepMeaning(Join(acc, es[0]), es[1..]);
    }
  }

  lemma {:induction false} RunsOnlyGrow(acc: seq<Extent>, es: seq<Extent>)
    requires Fits(Runs(acc, es))
    ensures Fits(acc)
    decreases |es|
  {
    if es != [] {
      RunsOnlyGrow(Join(acc, es[0]), es[1..]);
      var j := Join(acc, es[0]);
      forall i | 0 <= i < |acc| ensures acc[i].len < U32 { assert acc[i].len <= j[i].len; }
    }
  }

  lemma {:induction false} FittingRunsAreCoalesced(acc: seq<Extent>, es: seq<Extent>)
    requires Fits(Runs(acc, es))
    ensures AttachAll(acc, es) == Runs(acc, es)
    decreases |es|
  {
    if es != [] {
      RunsOnlyGrow(Join(acc, es[0]), es[1..]);
      var j := Join(acc, es[0]);
      assert j[|j| - 1].len < U32;
      assert Attach(acc, es[0]) == j;
      FittingRunsAreCoalesced(j, es[1..]);
    }
  }

  lemma {:induction false} TotalOfLast(front: seq<Extent>, e: Extent)
    ensures Total(front + [e]) == Total(front) + e.len
  {
    ExpandAppend(front, [e]);
    ExpandSingle(e);
  }

  lemma {:induction false} AttachTotal(acc: seq<Extent>, e: Extent)
    requires Fits(acc) && e.len < U32
    ensures Fits(Attach(acc, e))
    ensures Total(Attach(acc, e)) <= Total(acc) + e.len
    ensures Fits(Join(acc, e)) ==> Attach(acc, e) == Join(acc, e)
    ensures !Fits(Join(acc, e)) ==> Total(Attach(acc, e)) < Total(acc) + e.len
  {
    if acc != [] && Follows(acc[|acc| - 1], e) {
      var front, last := acc[..|acc| - 1], acc[|acc| - 1];
      assert acc == front + [last];
      TotalOfLast(front, last);
      TotalOfLast(front, last.(len := Sum32(last.len, e.len)));
      var j := Join(acc, e);
      assert j[|j| - 1].len == last.len + e.len;
      assert last.len + e.len < U32 ==> Fits(j);
    } else {
      TotalOfLast(acc, e);
    }
  }

  /** A run that does not fit loses blocks, and nothing later brings them back. */
  lemma {:induction false} OverlongRunsLoseBlocks(acc: seq<Extent>, es: seq<Extent>)
    requires Fits(acc) && Fits(es)
    ensures Total(AttachAll(acc, es)) <= Total(acc) + Total(es)
    ensures !Fits(Runs(acc, es)) ==> Total(AttachAll(acc, es)) < Total(acc) + Total(es)
    decreases |es|
  {
    if es != [] {
      AttachTotal(acc, es[0]);
      OverlongRunsLoseBlocks(Attach(acc, es[0]), es[1..]);
    }
  }

  /** Coalescing keeps the mapping exactly when every run fits in a 32-bit length. */
  lemma {:induction false} CoalesceKeepsMeaning(es: seq<Extent>)
    requires Fits(es)
    ensures Expand(Coalesce(es)) == Expand(es) <==> RunsFit(es)
  {
    if RunsFit(es) {
      FittingRunsAreCoalesced([], es);
      RunsKeepMeaning([], es);
    } else {
      OverlongRunsLoseBlocks([], es);
      ExpandLength(es);
      ExpandLength(Coalesce(es));
    }
  }

  // A run of full-size extents long enough to overflow: 131072 of them.

  function FullSize(base: nat, k: nat): Extent
  {
    Extent(base + k * INIT_MAX_LEN, k * INIT_MAX_LEN, INIT_MAX_LEN, false)
  }

  function FullSizeRun(base: nat, from: nat, n: nat): (es: seq<Extent>)
    ensures |es| == n
    decreases n
  {
    if n == 0 then [] else [FullSize(base, from)] + FullSizeRun(base, from + 1, n - 1)
  }

  /** Leaves that pass 1 has no objection to in a file system of `blocks` blocks whose data begins at
      `firstData`; `next` is the first logical block not met before. */
  predicate Accepted(es: seq<Extent>, firstData: nat, blocks: nat, next: nat)
    decreases |es|
  {
    es == [] ||
    var e := es[0];
    && e.pblk != 0 && firstData <= e.pblk < blocks && e.pblk + e.len <= blocks && 0 < e.len <= MaxLen(e)
    && next <= e.lblk && e.lblk + e.len <= U32 && Accepted(es[1..], firstData, blocks, e.lblk + e.len)
  }

  lemma {:induction false} FullSizeRunAccepted(base: nat, from: nat, n: nat, firstData: nat, blocks: nat)
    requires 0 < base && firstData <= base && base + U32 <= blocks && from + n <= 131072
    ensures Accepted(FullSizeRun(base, from, n), firstData, blocks, from * INIT_MAX_LEN)
    decreases n
  {
    if n > 0 {
      var es := FullSizeRun(base, from, n);
      assert es[0] == FullSize(base, from) && es[1..] == FullSizeRun(base, from + 1, n - 1);
      FullSizeRunAccepted(base, from + 1, n - 1, firstData, blocks);
    }
  }

  /** The length of `n` full-size extents merged into one. */
  function MergedLen(n: nat): nat
  {
    if n < 131072 then n * INIT_MAX_LEN else 0
  }

  lemma {:induction false} FullSizeRunCoalesced(base: nat, from: nat, n: nat)
    requires 0 < from && from + n <= 131072
    ensures AttachAll([Extent(base, 0, MergedLen(from), false)], FullSizeRun(base, from, n))
            == [Extent(base, 0, MergedLen(from + n), false)]
    decreases n
  {
    hide Attach, MergedLen, FullSize;
    if n > 0 {
      var es := FullSizeRun(base, from, n);
      assert es[0] == FullSize(base, from) && es[1..] == FullSizeRun(base, from + 1, n - 1);
      OneFullSizeMore(base, from);
      FullSizeRunCoalesced(base, from + 1, n - 1);
    }
  }

  lemma {:induction false} OneFullSizeMore(base: nat, k: nat)
    requires 0 < k < 131072
    ensures Attach([Extent(base, 0, MergedLen(k), false)], FullSize(base, k))
            == [Extent(base, 0, MergedLen(k + 1), false)]
  {
  }

  lemma {:induction false} WholeRunCoalesced(base: nat, n: nat)
    requires 0 < n <= 131072
    ensures Coalesce(FullSizeRun(base, 0, n)) == [Extent(base, 0, MergedLen(n), false)]
  {
    var es := FullSizeRun(base, 0, n);
    assert es[0] == FullSize(base, 0) && es[1..] == FullSizeRun(base, 1, n - 1);
    assert Attach([], es[0]) == [Extent(base, 0, MergedLen(1), false)];
    FullSizeRunCoalesced(base, 1, n - 1);
  }

  /** Extents that pass 1 accepts and whose mapping is lost altogether, wherever on the disk they
      lie: 2^32 contiguous blocks become none. */
  lemma {:induction false} OverflowLosesTheFile(base: nat, n: nat, firstData: nat, blocks: nat)
    requires n * INIT_MAX_LEN == U32 && 0 < base && firstData <= base && base + U32 <= blocks
    ensures Accepted(FullSizeRun(base, 0, n), firstData, blocks, 0)
    ensures |Expand(FullSizeRun(base, 0, n))| > 0 && Expand(Coalesce(FullSizeRun(base, 0, n))) == []
  {
    WholeRunCoalesced(base, n);
    FullSizeRunAccepted(base, 0, n, firstData, blocks);
    assert Expand([Extent(base, 0, 0, false)]) == [];
    assert FullSizeRun(base, 0, n)[0] == FullSize(base, 0);
    assert |ExpandOne(FullSize(base, 0))| == INIT_MAX_LEN;
  }

  // ---------------------------------------------------------------- splitting

  function MaxLen(e: Extent): nat
  {
    if e.uninit then UNINIT_MAX_LEN else INIT_MAX_LEN
  }

  function Rest(e: Extent, n: nat): Extent
    requires n <= e.len
  {
    Extent(e.pblk + n, e.lblk + n, e.len - n, e.uninit)
  }

  /** What is written for one extent of the list. */
  function Pieces(e: Extent): (ps: seq<Extent>)
    decreases e.len
  {
    if e.len > MaxLen(e) then [e.(len := MaxLen(e))] + Pieces(Rest(e, MaxLen(e))) else [e]
  }

  function Emit(es: seq<Extent>): seq<Extent>
  {
    if es == [] then [] else Pieces(es[0]) + Emit(es[1..])
  }

  /** As many pieces as the limit requires (one for an empty extent), none over the limit. */
  lemma {:induction false} PieceCount(e: Extent)
    ensures |Pieces(e)| == if e.len == 0 then 1 else (e.len + MaxLen(e) - 1) / MaxLen(e)
    ensures forall p <- Pieces(e) :: p.len <= MaxLen(p) && p.uninit == e.uninit
    decreases e.len
  {
    if e.len > MaxLen(e) {
      PieceCount(Rest(e, MaxLen(e)));
    }
  }

  lemma {:induction false} PiecesKeepMeaning(e: Extent)
    ensures Expand(Pieces(e)) == ExpandOne(e)
    decreases e.len
  {
    if e.len > MaxLen(e) {
      var first, rest := e.(len := MaxLen(e)), Rest(e, MaxLen(e));
      PiecesKeepMeaning(rest);
      ExpandAppend([first], Pieces(rest));
      ExpandSingle(first);
      ExpandSplit(e, MaxLen(e));
    } else {
      ExpandSingle(e);
    }
  }

  lemma {:induction false} EmitKeepsMeaning(es: seq<Extent>)
    ensures Expand(Emit(es)) == Expand(es)
    ensures forall p <- Emit(es) :: p.len <= MaxLen(p)
  {
    if es != [] {
      PieceCount(es[0]);
      PiecesKeepMeaning(es[0]);
      EmitKeepsMeaning(es[1..]);
      ExpandAppend(Pieces(es[0]), Emit(es[1..]));
    }
  }

  /** The whole rebuild keeps the file's mapping exactly when every run fits. */
  lemma {:induction false} RebuildKeepsMeaning(es: seq<Extent>)
    requires Fits(es)
    ensures Expand(Emit(Coalesce(es))) == Expand(es) <==> RunsFit(es)
  {
    EmitKeepsMeaning(Coalesce(es));
    CoalesceKeepsMeaning(es);
  }

  // ---------------------------------------------------------------- rebuilding twice

  /** No two neighbours could be merged. */
  ghost predicate Apart(es: seq<Extent>)
  {
    forall i, j :: 0 <= i && j == i + 1 && j < |es| ==> !Adjoins(es[i], es[j])
  }

  lemma {:induction false} CoalescedIsApart(acc: seq<Extent>, es: seq<Extent>)
    requires Apart(acc) && Fits(acc) && Fits(es)
    ensures Apart(AttachAll(acc, es)) && Fits(AttachAll(acc, es))
    decreases |es|
  {
    if es != [] {
      CoalescedIsApart(Attach(acc, es[0]), es[1..]);
    }
  }

  lemma {:induction false} PiecesRejoin(acc: seq<Extent>, cur: Extent, rest: Extent, whole: Extent)
    requires Follows(cur, rest) && cur.len + rest.len < U32
    requires whole == cur.(len := cur.len + rest.len)
    ensures AttachAll(acc + [cur], Pieces(rest)) == acc + [whole]
    decreases rest.len
  {
    var n := if rest.len > MaxLen(rest) then MaxLen(rest) else rest.len;
    var grown := cur.(len := cur.len + n);
    assert Attach(acc + [cur], rest.(len := n)) == acc + [grown];
    if rest.len > MaxLen(rest) {
      PiecesRejoin(acc, grown, Rest(rest, n), whole);
    } else {
      assert Pieces(rest) == [rest] && rest == rest.(len := n);
      assert AttachAll(acc + [grown], []) == acc + [grown];
    }
  }

  lemma {:induction false} AttachAllCons(acc: seq<Extent>, e: Extent, es: seq<Extent>, result: seq<Extent>)
    requires acc != [] ==> !Follows(acc[|acc| - 1], e)
    requires AttachAll(acc + [e], es) == result
    ensures AttachAll(acc, [e] + es) == result
  {
    assert ([e] + es)[1..] == es;
  }

  lemma {:induction false} OneRejoins(acc: seq<Extent>, e: Extent)
    requires e.len < U32 && (acc != [] ==> !Follows(acc[|acc| - 1], e))
    ensures AttachAll(acc, Pieces(e)) == acc + [e]
  {
    if e.len > MaxLen(e) {
      var n := MaxLen(e);
      PiecesRejoin(acc, e.(len := n), Rest(e, n), e);
      AttachAllCons(acc, e.(len := n), Pieces(Rest(e, n)), acc + [e]);
    } else {
      AttachAllCons(acc, e, [], acc + [e]);
      assert Pieces(e) == [e] + [];
    }
  }

  lemma {:induction false} EmittedRejoins(acc: seq<Extent>, es: seq<Extent>)
    requires Apart(acc + es) && Fits(es)
    ensures AttachAll(acc, Emit(es)) == acc + es
    decreases |es|
  {
    if es == [] {
      assert acc + es == acc;
    } else {
      assert acc != [] ==> !Adjoins((acc + es)[|acc| - 1], (acc + es)[|acc|]);
      OneRejoins(acc, es[0]);
      AttachAllAppend(acc, Pieces(es[0]), Emit(es[1..]));
      assert acc + es == (acc + [es[0]]) + es[1..];
      EmittedRejoins(acc + [es[0]], es[1..]);
    }
  }

  /** Reading back what was written gives the list it was written from, so rebuilding a
      rebuilt tree changes nothing, whether or not the first rebuild lost blocks. */
  lemma {:induction false} RebuildIsIdempotent(es: seq<Extent>)
    requires Fits(es)
    ensures Coalesce(Emit(Coalesce(es))) == Coalesce(es)
    ensures Emit(Coalesce(Emit(Coalesce(es)))) == Emit(Coalesce(es))
  {
    CoalescedIsApart([], es);
    assert [] + Coalesce(es) == Coalesce(es);
    EmittedRejoins([], Coalesce(es));
  }

  // ---------------------------------------------------------------- what is read

  /** The blocks of a block-mapped file, in the order in which the iterator meets them. */
  function MappedBy(ms: seq<MapBlock>): seq<Mapping>
  {
    if ms == [] then [] else MappedByOne(ms[0]) + MappedBy(ms[1..])
  }

  function MappedByOne(m: MapBlock): seq<Mapping>
  {
    if m.count >= 0 then [Mapping(m.count, m.blk, false)] else []
  }

  /** The blocks of the leaves of an extent tree, in the order in which they are visited. */
  function VisitedBy(vs: seq<Visit>): seq<Mapping>
  {
    if vs == [] then [] else VisitedByOne(vs[0]) + VisitedBy(vs[1..])
  }

  function VisitedByOne(v: Visit): seq<Mapping>
  {
    if v.Leaf? then ExpandOne(v.e) else []
  }

  lemma {:induction false} MappedByMeans(ms: seq<MapBlock>, l: nat, p: nat, u: bool)
    ensures Mapping(l, p, u) in MappedBy(ms) <==> !u && MapBlock(l, p) in ms
    ensures |MappedBy(ms)| + |Indirects(ms)| == |ms|
    ensures p in Indirects(ms) <==> exists c: int :: c < 0 && MapBlock(c, p) in ms
    decreases |ms|
  {
    if ms != [] {
      MappedByMeans(ms[1..], l, p, u);
      IndirectsFirst(ms);
      assert ms == [ms[0]] + ms[1..];
    }
  }

  lemma {:induction false} IndirectsFirst(ms: seq<MapBlock>)
    requires ms != []
    ensures Indirects(ms) == (if ms[0].count < 0 then [ms[0].blk] else []) + Indirects(ms[1..])
    decreases |ms|
  {
    if |ms| > 1 {
      var front := ms[..|ms| - 1];
      IndirectsFirst(front);
      assert front[1..] == ms[1..][..|ms| - 2];
    } else {
      assert ms[..0] == [] && ms[1..] == [];
    }
  }

  lemma {:induction false} VisitedByMeans(vs: seq<Visit>, x: Mapping)
    ensures x in VisitedBy(vs) <==> exists e :: Leaf(e) in vs && x in ExpandOne(e)
    decreases |vs|
  {
    if vs != [] {
      VisitedByMeans(vs[1..], x);
      assert vs == [vs[0]] + vs[1..];
      if vs[0].Leaf? && x in ExpandOne(vs[0].e) {
        assert Leaf(vs[0].e) in vs;
      }
    }
  }

  lemma {:induction false} MappedBySnoc(ms: seq<MapBlock>, m: MapBlock)
    ensures MappedBy(ms + [m]) == MappedBy(ms) + MappedByOne(m)
    decreases |ms|
  {
    hide MappedByOne;
    if ms == [] {
      assert ms + [m] == [m] && [m][1..] == [];
    } else {
      assert (ms + [m])[1..] == ms[1..] + [m];
      MappedBySnoc(ms[1..], m);
    }
  }

  lemma {:induction false} VisitedBySnoc(vs: seq<Visit>, v: Visit)
    ensures VisitedBy(vs + [v]) == VisitedBy(vs) + VisitedByOne(v)
    decreases |vs|
  {
    hide VisitedByOne;
    if vs == [] {
      assert vs + [v] == [v] && [v][1..] == [];
    } else {
      assert (vs + [v])[1..] == vs[1..] + [v];
      VisitedBySnoc(vs[1..], v);
    }
  }

  lemma {:induction false} DataBlocksMean(ms: seq<MapBlock>)
    ensures Expand(DataBlocks(ms)) == MappedBy(ms) && Fits(DataBlocks(ms)) && Total(DataBlocks(ms)) <= |ms|
  {
    if ms != [] {
      var front, m := ms[..|ms| - 1], ms[|ms| - 1];
      assert ms == front + [m];
      DataBlocksMean(front);
      MappedBySnoc(front, m);
      if m.count >= 0 {
        ExpandLast(DataBlocks(front), OneBlock(m));
        TotalOfLast(DataBlocks(front), OneBlock(m));
        assert ExpandOne(OneBlock(m)) == [Mapping(m.count, m.blk, false)];
      }
    }
  }

  lemma {:induction false} LeavesMean(vs: seq<Visit>)
    ensures Expand(Leaves(vs)) == VisitedBy(vs)
    ensures (forall e :: Leaf(e) in vs ==> e.len < U32) ==> Fits(Leaves(vs))
  {
    if vs != [] {
      var front, v := vs[..|vs| - 1], vs[|vs| - 1];
      assert vs == front + [v];
      LeavesMean(front);
      VisitedBySnoc(front, v);
      if v.Leaf? {
        ExpandLast(Leaves(front), v.e);
      }
    }
  }

  /** Few blocks make no long run. */
  lemma {:induction false} FewBlocksFit(es: seq<Extent>)
    requires Total(es) < U32
    ensures RunsFit(es)
  {
    var rs := Runs([], es);
    RunsKeepMeaning([], es);
    ExpandLength(es);
    ExpandLength(rs);
    forall i | 0 <= i < |rs| ensures rs[i].len < U32 {
      PartOfTotal(rs, i);
    }
  }

  lemma {:induction false} PartOfTotal(es: seq<Extent>, i: nat)
    requires i < |es|
    ensures es[i].len <= Total(es)
  {
    if i > 0 {
      PartOfTotal(es[1..], i - 1);
    }
  }

  // ---------------------------------------------------------------- the code

  function OneBlock(m: MapBlock): Extent
    requires m.count >= 0
  {
    Extent(m.blk, m.count, 1, false)
  }

  function DataBlocks(ms: seq<MapBlock>): seq<Extent>
  {
    if ms == [] then []
    else if ms[|ms| - 1].count >= 0 then DataBlocks(ms[..|ms| - 1]) + [OneBlock(ms[|ms| - 1])]
    else DataBlocks(ms[..|ms| - 1])
  }

  /** The indirect blocks met. */
  function Indirects(ms: seq<MapBlock>): seq<nat>
  {
    if ms == [] then []
    else if ms[|ms| - 1].count < 0 then Indirects(ms[..|ms| - 1]) + [ms[|ms| - 1].blk]
    else Indirects(ms[..|ms| - 1])
  }

  /** One turn of the writing loop: what is written and what the list still holds, from slot i
      on, add up to the same. */
  lemma {:induction false} WriteTurn(written: seq<Extent>, es: seq<Extent>, i: nat)
    requires i < |es|
    ensures var e := es[i];
            written + Emit(es[i..]) ==
            if e.len > MaxLen(e)
            then written + [e.(len := MaxLen(e))] + Emit(es[i := Rest(e, MaxLen(e))][i..])
            else written + [e] + Emit(es[i + 1..])
  {
    var e := es[i];
    assert es[i..][1..] == es[i + 1..];
    if e.len > MaxLen(e) {
      var shorter := es[i := Rest(e, MaxLen(e))];
      assert shorter[i..][1..] == es[i + 1..];
    }
  }

  lemma {:induction false} NothingEmitted()
    ensures Emit([]) == []
  {
  }

  class ExtentList {
    var extents: seq<Extent>
    var freed: seq<nat>      // blocks given back; blocks_freed is its length
    var extRead: nat

    constructor ()
      ensures extents == [] && freed == [] && extRead == 0
    {
      extents, freed, extRead := [], [], 0;
    }

    method AttachOrAdd(e: Extent)
      modifies this`extents
      ensures extents == Attach(old(extents), e)
    {
      if |extents| > 0 && Adjoins(extents[|extents| - 1], e) {
        var last := extents[|extents| - 1];
        extents := extents[|extents| - 1 := last.(len := Sum32(last.len, e.len))];
      } else {
        extents := extents + [e];
      }
    }

    /** load_extents, over the visits of one walk through the old tree. */
    method LoadExtents(vs: seq<Visit>)
      requires extents == [] && freed == [] && extRead == 0
      modifies this
      ensures extents == Coalesce(Leaves(vs))
      ensures (forall e :: Leaf(e) in vs ==> e.len < U32) ==>
                (Expand(extents) == VisitedBy(vs) <==> RunsFit(Leaves(vs)))
      ensures freed == Interiors(vs)
      ensures extRead == |Leaves(vs)|
    {
      for n := 0 to |vs|
        invariant extents == Coalesce(Leaves(vs[..n]))
        invariant freed == Interiors(vs[..n])
        invariant extRead == |Leaves(vs[..n])|
      {
        assert vs[..n + 1][..n] == vs[..n];
        match vs[n]
        case SecondVisit =>
        case Interior(blk) => freed := freed + [blk];
        case Leaf(e) =>
          CoalesceOneMore(Leaves(vs[..n]), e);
          extRead := extRead + 1;
          AttachOrAdd(e);
      }
      assert vs[..|vs|] == vs;
      LeavesMean(vs);
      if forall e :: Leaf(e) in vs ==> e.len < U32 {
        CoalesceKeepsMeaning(Leaves(vs));
      }
    }

    /** find_blocks, over all the blocks of a block-mapped file. */
    method FindBlocks(ms: seq<MapBlock>)
      requires extents == [] && freed == []
      modifies this
      ensures extents == Coalesce(DataBlocks(ms)) && freed == Indirects(ms)
      ensures Expand(extents) == MappedBy(ms) <==> RunsFit(DataBlocks(ms))
      ensures |ms| < U32 ==> Expand(extents) == MappedBy(ms)
    {
      hide AttachAll;
      assert Coalesce([]) == [] by {
        NothingCoalesced();
      }
      for n := 0 to |ms|
        invariant extents == Coalesce(DataBlocks(ms[..n])) && freed == Indirects(ms[..n])
        invariant forall i :: 0 <= i < |extents| ==> !extents[i].uninit
      {
        assert ms[..n + 1][..n] == ms[..n];
        var m := ms[n];
        if m.count < 0 {
          freed := freed + [m.blk];
        } else {
          CoalesceOneMore(DataBlocks(ms[..n]), OneBlock(m));
          if |extents| > 0 && extents[|extents| - 1].lblk + extents[|extents| - 1].len == m.count
             && extents[|extents| - 1].pblk + extents[|extents| - 1].len == m.blk {
            var last := extents[|extents| - 1];
            extents := extents[|extents| - 1 := last.(len := Sum32(last.len, 1))];
          } else {
            extents := extents + [OneBlock(m)];
          }
        }
      }
      assert ms[..|ms|] == ms;
      DataBlocksMean(ms);
      CoalesceKeepsMeaning(DataBlocks(ms));
      if |ms| < U32 {
        FewBlocksFit(DataBlocks(ms));
      }
    }

    /** The loop that stuffs the list into the new tree.  An extent over its limit is shortened
        in the list and the index steps back, so that the same slot is met again (below slot 0
        the unsigned index wraps, and the increment at the end of the turn wraps it back). */
    method WriteExtents() returns (written: seq<Extent>)
      modifies this`extents
      ensures written == Emit(old(extents)) && Expand(written) == Expand(old(extents))
      ensures forall e <- written :: e.len <= if e.uninit then 32767 else 32768
    {
      hide Expand, Emit;
      written := [];
      var i := 0;
      while i < |extents|
        invariant 0 <= i <= |extents|
        invariant written + Emit(extents[i..]) == Emit(old(extents))
        decreases |extents| - i, if i < |extents| then extents[i].len else 0
      {
        WriteTurn(written, extents, i);
        var ex := extents[i];
        var extent := ex;
        var max := if ex.uninit then UNINIT_MAX_LEN else INIT_MAX_LEN;
        if extent.len > max {
          extent := extent.(len := max);
          extents := extents[i := Extent(ex.pblk + max, ex.lblk + max, ex.len - max, ex.uninit)];
          i := i - 1;
        }
        written := written + [extent];
        i := i + 1;
      }
      NothingEmitted();
      assert extents[i..] == [];
      EmitKeepsMeaning(old(extents));
    }

    /** rebuild_extent_tree for a block-mapped file: what is written maps its blocks if and only if no run
        of them is 2^32 blocks or longer. */
    method RebuildFromMap(ms: seq<MapBlock>) returns (written: seq<Extent>)
      requires extents == [] && freed == []
      modifies this
      ensures Expand(written) == MappedBy(ms) <==> RunsFit(DataBlocks(ms))
      ensures |ms| < U32 ==> Expand(written) == MappedBy(ms)
    {
      FindBlocks(ms);
      written := WriteExtents();
    }

    /** The same for one with an extent tree. */
    method RebuildFromTree(vs: seq<Visit>) returns (written: seq<Extent>)
      requires extents == [] && freed == [] && extRead == 0 && forall e :: Leaf(e) in vs ==> e.len < U32
      modifies this
      ensures Expand(written) == VisitedBy(vs) <==> RunsFit(Leaves(vs))
    {
      LoadExtents(vs);
      written := WriteExtents();
    }
  }
}

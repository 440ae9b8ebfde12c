/**
  The consistency check of a hashed directory's index in pass 2, for an index whose only interior
  block is its root: the root's entries are read into per-block records, the names found in each
  leaf narrow the record's observed hashes, and at the end the records are compared.
 */
module Htree {

  const MAX_HASH: nat := 0xffff_ffff        // ~0
  const LAST_HASH: nat := 0xffff_fffe
  const BLOCK_MASK: nat := 0x1000_0000      // EXT4_DX_BLOCK_MASK keeps the bits below this one
  const ENTRY_LEN: nat := 8                 // sizeof(struct ext2_dx_entry)
  const ROOT_INFO_AT: nat := 24
  const MAX_DEPTH: nat := 32000

  /** An entry of an index block. */
  datatype Ent = Ent(hash: nat, block: nat)

  /** The root block of an index.  `entries` is all the block has room for, of which the first
      `count` are meant. */
  datatype Root = Root(reserved: nat, infoLength: nat, levels: nat, limit: nat, count: nat, entries: seq<Ent>) {
    /** What the check expects to find as the limit. */
    function ExpectedLimit(blockSize: nat, csum: bool): (n: int)
      ensures var room := blockSize - ROOT_INFO_AT - infoLength - if csum then 8 else 0;
              n * ENTRY_LEN <= room < (n + 1) * ENTRY_LEN
    {
      (blockSize - ((if csum then 8 else 0) + ROOT_INFO_AT + infoLength)) / ENTRY_LEN
    }

    function Used(): seq<Ent>
    {
      if count <= |entries| then entries[..count] else entries
    }
  }

  datatype Kind = None | RootBlock | Leaf | Node

  /** struct dx_dirblock_info: the record kept for a block of the directory. */
  datatype Rec = Rec(kind: Kind, referenced: bool, dupRef: bool, first: bool, last: bool,
                     parent: nat, previous: nat, minHash: nat, maxHash: nat, nodeMin: nat, nodeMax: nat)

  // ---------------------------------------------------------------- what a good index is

  /** The separator of entry `i`: the lowest hash that belongs to its block. */
  function Separator(es: seq<Ent>, i: nat): (low: nat)
    requires i < |es|
    ensures low % 2 == 0
    ensures if i == 0 then low == 0 else low <= es[i].hash < low + 2
  {
    if i == 0 then 0 else es[i].hash - es[i].hash % 2
  }

  /** The highest hash that belongs to the block of entry `i`. */
  function Upper(es: seq<Ent>, i: nat): (high: nat)
    requires i < |es|
    ensures high % 2 == 0
    ensures if i + 1 < |es| then high <= es[i + 1].hash < high + 2 else high == 0xffff_fffe
  {
    if i + 1 < |es| then Separator(es, i + 1) else LAST_HASH
  }

  function Target(es: seq<Ent>, i: nat): (b: nat)
    requires i < |es|
    ensures b < 0x1000_0000 && (es[i].block - b) % 0x1000_0000 == 0
  {
    es[i].block % BLOCK_MASK
  }

  /** The bounds of the separators of an index block that are in order. */
  function Lowest(es: seq<Ent>): nat
  {
    if es == [] then MAX_HASH else 0
  }

  function Highest(es: seq<Ent>): nat
  {
    if es == [] then 0 else Separator(es, |es| - 1)
  }

  /** How many of the first `k` entries refer to block `b`. */
  function Refs(es: seq<Ent>, k: nat, b: nat): nat
    requires k <= |es|
  {
    if k == 0 then 0 else Refs(es, k - 1, b) + if Target(es, k - 1) == b then 1 else 0
  }

  predicate Ordered(es: seq<Ent>, k: nat)
    requires k <= |es|
  {
    forall i {:trigger Separator(es, i)} :: 0 < i < k ==> Separator(es, i - 1) <= Separator(es, i)
  }

  predicate InRange(es: seq<Ent>, k: nat, n: nat)
    requires k <= |es|
  {
    forall i :: 0 <= i < k ==> Target(es, i) < n
  }

  predicate HashFits(es: seq<Ent>, i: nat, h: nat)
    requires i < |es|
  {
    Separator(es, i) <= h <= Upper(es, i)
  }

  /** Every name of the block that entry `i` refers to has a hash between the entry's separator and
      the next one. */
  predicate NamesFit(es: seq<Ent>, names: seq<seq<nat>>, i: nat)
    requires i < |es|
  {
    Target(es, i) < |names| ==> forall k :: 0 <= k < |names[Target(es, i)]| ==> HashFits(es, i, names[Target(es, i)][k])
  }

  /** An index over the `|names|` blocks of a directory that can be relied upon: the separators do
      not decrease, the entries refer to blocks of the directory, to each leaf once and never to the
      root, and the names are where their hashes say. */
  ghost predicate GoodIndex(es: seq<Ent>, names: seq<seq<nat>>)
  {
    && InRange(es, |es|, |names|) && Ordered(es, |es|)
    && (forall b :: 0 <= b < |names| ==> Refs(es, |es|, b) == if b == 0 then 0 else 1)
    && (forall i :: 0 <= i < |es| ==> NamesFit(es, names, i))
  }

  predicate GoodRoot(r: Root, maxLevels: nat)
  {
    r.reserved == 0 && r.infoLength >= 8 && r.levels < maxLevels
  }

  predicate GoodCount(r: Root, blockSize: nat, csum: bool)
  {
    r.limit == r.ExpectedLimit(blockSize, csum) && r.count <= r.ExpectedLimit(blockSize, csum)
  }

  // ---------------------------------------------------------------- references

  lemma {:induction false} RefsMonotone(es: seq<Ent>, j: nat, k: nat, b: nat)
    requires j <= k <= |es|
    ensures Refs(es, j, b) <= Refs(es, k, b)
    decreases k - j
  {
    if j < k {
      RefsMonotone(es, j, k - 1, b);
    }
  }

  /** A block that is referred to once is referred to by one entry alone. */
  lemma {:induction false} OnlyRef(es: seq<Ent>, k: nat, b: nat, i: nat, j: nat)
    requires k <= |es| && Refs(es, k, b) <= 1 && i <= j < k && Target(es, i) == b == Target(es, j)
    ensures i == j
  {
    RefsMonotone(es, 0, i, b);
    if i < j {
      RefsMonotone(es, i + 1, j, b);
    }
    RefsMonotone(es, j + 1, k, b);
  }

  lemma {:induction false} SomeRef(es: seq<Ent>, k: nat, b: nat) returns (i: nat)
    requires k <= |es| && Refs(es, k, b) > 0
    ensures i < k && Target(es, i) == b
    decreases k
  {
    if Target(es, k - 1) == b {
      i := k - 1;
    } else {
      i := SomeRef(es, k - 1, b);
    }
  }

  /** In a good index every leaf has one entry of its own. */
  lemma {:induction false} EachLeafOnce(es: seq<Ent>, names: seq<seq<nat>>, b: nat) returns (i: nat)
    requires GoodIndex(es, names) && 0 < b < |names|
    ensures i < |es| && Target(es, i) == b && forall j :: 0 <= j < |es| && j != i ==> Target(es, j) != b
  {
    i := SomeRef(es, |es|, b);
    forall j | 0 <= j < |es| && j != i ensures Target(es, j) != b {
      if Target(es, j) == b {
        OnlyRef(es, |es|, b, if i < j then i else j, if i < j then j else i);
      }
    }
  }

  lemma {:induction false} RefCounts(es: seq<Ent>, k: nat, i: nat)
    requires i < k <= |es|
    ensures Refs(es, k, Target(es, i)) > 0
  {
    RefsMonotone(es, i + 1, k, Target(es, i));
  }

  // ---------------------------------------------------------------- the records after the root

  function Fresh(): Rec
  {
    Rec(None, false, false, false, false, 0, 0, 0, 0, 0, 0)
  }

  /** The record of a block that entry `i` of the root refers to. */
  function Marked(es: seq<Ent>, i: nat, r: Rec): Rec
    requires i < |es|
  {
    r.(referenced := true, dupRef := r.dupRef || r.referenced,
       parent := if r.referenced then r.parent else 0,
       previous := if i > 0 then Target(es, i - 1) else 0,
       nodeMin := Separator(es, i), nodeMax := Upper(es, i),
       last := r.last || i + 1 == |es|, first := r.first || i == 0)
  }

  /** The record of block `b` after the first `k` entries of the root. */
  function After(es: seq<Ent>, k: nat, b: nat, r: Rec): Rec
    requires k <= |es|
  {
    if k == 0 then r
    else if Target(es, k - 1) == b then Marked(es, k - 1, After(es, k - 1, b, r))
    else After(es, k - 1, b, r)
  }

  lemma {:induction false} AfterFlags(es: seq<Ent>, k: nat, b: nat, r: Rec)
    requires k <= |es| && !r.referenced && !r.dupRef && r.parent == 0 && r.previous == 0
    ensures var a := After(es, k, b, r);
            && (a.referenced <==> Refs(es, k, b) >= 1) && (a.dupRef <==> Refs(es, k, b) >= 2)
            && a.parent == 0 && (Refs(es, k, b) == 0 ==> a == r) && (r.first ==> a.first)
            && a.kind == r.kind && a.minHash == r.minHash && a.maxHash == r.maxHash
    decreases k
  {
    if k > 0 {
      AfterFlags(es, k - 1, b, r);
    }
  }

  lemma {:induction false} AfterPrevious(es: seq<Ent>, k: nat, b: nat, r: Rec, n: nat)
    requires k <= |es| && InRange(es, |es|, n) && r.previous < n
    ensures After(es, k, b, r).previous < n
    decreases k
  {
    if k > 0 {
      AfterPrevious(es, k - 1, b, r, n);
    }
  }

  /** A block that is referred to once carries the bounds of the entry that does so. */
  lemma {:induction false} AfterOnce(es: seq<Ent>, k: nat, b: nat, r: Rec, i: nat)
    requires i < k <= |es| && Target(es, i) == b && Refs(es, k, b) == 1 && !r.first
    requires !r.referenced && !r.dupRef && r.parent == 0 && r.previous == 0
    ensures var a := After(es, k, b, r);
            a.nodeMin == Separator(es, i) && a.nodeMax == Upper(es, i) && (a.first <==> i == 0)
    decreases k
  {
    AfterFlags(es, k - 1, b, r);
    if i < k - 1 {
      RefsMonotone(es, i + 1, k - 1, b);
      RefsMonotone(es, 0, i, b);
      AfterOnce(es, k - 1, b, r, i);
    } else {
      assert Refs(es, k - 1, b) == 0;
    }
  }

  // ---------------------------------------------------------------- hashes

  /** `lo` and `hi` are the least and greatest of `hs`, beginning with ~0 and 0. */
  predicate Spans(hs: seq<nat>, k: nat, lo: nat, hi: nat)
    requires k <= |hs|
  {
    && (forall i :: 0 <= i < k ==> lo <= hs[i] <= hi)
    && (lo == MAX_HASH || lo in hs[..k]) && (hi == 0 || hi in hs[..k])
  }

  /** The observed bounds are within [low, high] exactly when every hash is. */
  lemma {:induction false} SpanWithin(hs: seq<nat>, lo: nat, hi: nat, low: nat, high: nat)
    requires Spans(hs, |hs|, lo, hi) && low <= MAX_HASH
    ensures (low <= lo && hi <= high) <==> forall i :: 0 <= i < |hs| ==> low <= hs[i] <= high
  {
    assert hs[..|hs|] == hs;
    if forall i :: 0 <= i < |hs| ==> low <= hs[i] <= high {
      if lo != MAX_HASH {
        assert lo in hs;
      }
      if hi != 0 {
        assert hi in hs;
      }
    }
  }

  lemma {:induction false} SpansMore(hs: seq<nat>, k: nat, lo: nat, hi: nat)
    requires k < |hs| && Spans(hs, k, lo, hi)
    ensures Spans(hs, k + 1, if hs[k] < lo then hs[k] else lo, if hs[k] > hi then hs[k] else hi)
  {
    assert hs[..k + 1] == hs[..k] + [hs[k]];
  }

  predicate AllHashes(names: seq<seq<nat>>)
  {
    forall b, i :: 0 <= b < |names| && 0 <= i < |names[b]| ==> names[b][i] <= MAX_HASH
  }

  // ---------------------------------------------------------------- the records at the end

  function RootStart(): Rec
  {
    Fresh().(kind := RootBlock, first := true, last := true)
  }

  predicate RootRead(r: Rec, es: seq<Ent>)
  {
    && r.kind == RootBlock && r.first && r.parent == 0
    && (r.referenced <==> Refs(es, |es|, 0) >= 1) && (r.dupRef <==> Refs(es, |es|, 0) >= 2)
    && (Refs(es, |es|, 0) == 0 ==> r.previous == 0)
  }

  function Observed(r: Rec, lo: nat, hi: nat): Rec
  {
    r.(kind := Leaf, minHash := lo, maxHash := hi)
  }

  predicate LeafRead(r: Rec, was: Rec, hashes: seq<nat>)
  {
    r == Observed(was, r.minHash, r.maxHash) && Spans(hashes, |hashes|, r.minHash, r.maxHash)
  }

  predicate UnderRootAt(recs: seq<Rec>, b: nat)
    requires b < |recs|
  {
    recs[b].parent == 0 && recs[b].previous < |recs|
  }

  predicate UnderRoot(recs: seq<Rec>)
  {
    |recs| > 0 && forall b :: 0 <= b < |recs| ==> UnderRootAt(recs, b)
  }

  predicate SameShape(a: Rec, b: Rec)
  {
    a.(minHash := 0, maxHash := 0, nodeMax := 0) == b.(minHash := 0, maxHash := 0, nodeMax := 0)
  }

  lemma {:induction false} ShapeKept(r: Rec, lo: nat, hi: nat, nodeMax: nat)
    ensures SameShape(r, r.(minHash := lo, maxHash := hi, nodeMax := nodeMax))
  {
  }

  predicate SameShapeAt(a: seq<Rec>, b: seq<Rec>, i: nat)
    requires i < |a| == |b|
  {
    SameShape(a[i], b[i])
  }

  predicate SameShapes(a: seq<Rec>, b: seq<Rec>)
  {
    |a| == |b| && forall i :: 0 <= i < |a| ==> SameShapeAt(a, b, i)
  }

  lemma {:induction false} ShapesJoin(a: seq<Rec>, b: seq<Rec>, c: seq<Rec>)
    requires SameShapes(a, b) && |b| == |c| && forall i :: 0 <= i < |b| ==> SameShape(b[i], c[i])
    ensures SameShapes(a, c)
  {
    forall i | 0 <= i < |a| ensures SameShapeAt(a, c, i) {
      assert SameShapeAt(a, b, i);
    }
  }

  lemma {:induction false} ShapeUnderRoot(a: seq<Rec>, b: seq<Rec>)
    requires SameShapes(a, b) && UnderRoot(a)
    ensures UnderRoot(b)
  {
    forall i | 0 <= i < |b| ensures UnderRootAt(b, i) {
      assert SameShapeAt(a, b, i) && UnderRootAt(a, i);
    }
  }

  /** Nothing is reported about a block. */
  predicate Fine(r: Rec, b: nat, depth: nat)
  {
    && (r.first || r.minHash >= r.nodeMin) && (r.kind == Leaf ==> depth == 1)
    && (b > 0 ==> r.maxHash <= r.nodeMax) && r.referenced && !r.dupRef
  }

  /** The records once everything has been read: those of the leaves hold what the root's entries
      and their own names say, unless the root refers to itself. */
  ghost predicate AllRead(recs: seq<Rec>, es: seq<Ent>, names: seq<seq<nat>>)
  {
    && |recs| == |names| > 0 && recs[0].kind == RootBlock && recs[0].first
    && recs[0].referenced && (recs[0].dupRef <==> Refs(es, |es|, 0) >= 1)
    && (Refs(es, |es|, 0) == 0 ==>
          forall b :: 0 < b < |recs| ==> LeafRead(recs[b], After(es, |es|, b, Fresh()), names[b]))
  }

  /** The record of a leaf that entry `i` alone refers to is fine exactly when its names fit. */
  lemma {:induction false} FineFits(r: Rec, es: seq<Ent>, names: seq<seq<nat>>, i: nat, depth: nat)
    requires i < |es| && 0 < Target(es, i) < |names| && Refs(es, |es|, Target(es, i)) == 1 && AllEnts(es)
    requires LeafRead(r, After(es, |es|, Target(es, i), Fresh()), names[Target(es, i)])
    ensures Fine(r, Target(es, i), depth) <==> depth == 1 && NamesFit(es, names, i)
  {
    var b := Target(es, i);
    AfterFlags(es, |es|, b, Fresh());
    AfterOnce(es, |es|, b, Fresh(), i);
    SpanWithin(names[b], r.minHash, r.maxHash, Separator(es, i), Upper(es, i));
  }

  lemma {:induction false} FineMeansOneRef(r: Rec, es: seq<Ent>, b: nat, hashes: seq<nat>, depth: nat)
    requires b > 0 && LeafRead(r, After(es, |es|, b, Fresh()), hashes) && Fine(r, b, depth)
    ensures Refs(es, |es|, b) == 1 && depth == 1
  {
    AfterFlags(es, |es|, b, Fresh());
  }

  predicate AllEnts(es: seq<Ent>)
  {
    forall i :: 0 <= i < |es| ==> es[i].hash <= MAX_HASH
  }

  lemma {:induction false} FineMeansGood(recs: seq<Rec>, es: seq<Ent>, names: seq<seq<nat>>, depth: nat)
    requires AllRead(recs, es, names) && AllEnts(es) && InRange(es, |es|, |names|) && Ordered(es, |es|)
    requires forall b :: 0 <= b < |recs| ==> Fine(recs[b], b, depth)
    ensures GoodIndex(es, names) && (|names| > 1 ==> depth == 1)
  {
    assert Fine(recs[0], 0, depth);
    forall b | 0 < b < |recs| ensures Refs(es, |es|, b) == 1 && depth == 1 {
      FineMeansOneRef(recs[b], es, b, names[b], depth);
    }
    forall i | 0 <= i < |es| ensures NamesFit(es, names, i) {
      RefCounts(es, |es|, i);
      FineFits(recs[Target(es, i)], es, names, i, depth);
    }
    if |names| > 1 {
      FineMeansOneRef(recs[1], es, 1, names[1], depth);
    }
  }

  lemma {:induction false} GoodMeansFine(recs: seq<Rec>, es: seq<Ent>, names: seq<seq<nat>>, depth: nat, b: nat)
    requires AllRead(recs, es, names) && AllEnts(es) && GoodIndex(es, names) && (|names| > 1 ==> depth == 1)
             && b < |recs|
    ensures Fine(recs[b], b, depth)
  {
    assert Refs(es, |es|, 0) == 0;
    if b > 0 {
      var i := SomeRef(es, |es|, b);
      FineFits(recs[b], es, names, i, depth);
    }
  }

  /** What the root has as its least hash once the first `n` blocks have passed theirs on. */
  function FirstMin(recs: seq<Rec>, n: nat, kind: Kind): nat
    requires 0 < |recs| && n <= |recs|
  {
    if n == 0 then recs[0].minHash
    else if recs[n - 1].kind == kind && recs[n - 1].first then recs[n - 1].minHash
    else FirstMin(recs, n - 1, kind)
  }

  function LastMax(recs: seq<Rec>, n: nat, kind: Kind): nat
    requires 0 < |recs| && n <= |recs|
  {
    if n == 0 then recs[0].maxHash
    else if recs[n - 1].kind == kind && recs[n - 1].last then recs[n - 1].maxHash
    else LastMax(recs, n - 1, kind)
  }

  // ---------------------------------------------------------------- the code

  /** A hashed directory as pass 2 keeps track of it. */
  class DxDir {
    const blocks: array<Rec>
    var depth: nat

    constructor (numBlocks: nat)
      ensures blocks.Length == numBlocks && fresh(blocks)
      ensures forall b :: 0 <= b < numBlocks ==> blocks[b] == Fresh()
    {
      blocks := new Rec[numBlocks](_ => Fresh());
    }

    /** What an entry of the root says about the block it refers to. */
    method MarkBlock(es: seq<Ent>, i: nat)
      requires i < |es| && Target(es, i) < blocks.Length
      modifies blocks
      ensures blocks[..] == old(blocks[..])[Target(es, i) := Marked(es, i, old(blocks[Target(es, i)]))]
    {
      var db := blocks[Target(es, i)];
      if db.referenced {
        db := db.(dupRef := true);
      } else {
        db := db.(referenced := true, parent := 0);
      }
      db := db.(previous := if i > 0 then Target(es, i - 1) else 0);
      db := db.(nodeMin := Separator(es, i));
      if i + 1 < |es| {
        db := db.(nodeMax := Separator(es, i + 1));
      } else {
        db := db.(nodeMax := LAST_HASH, last := true);
      }
      if i == 0 {
        db := db.(first := true);
      }
      blocks[Target(es, i)] := db;
    }

    /** The loop of parse_int_node over the entries of the root.  The first problem clears the
        index, so the loop stops there. */
    method ParseEntries(es: seq<Ent>) returns (ok: bool, minHash: nat, maxHash: nat)
      modifies blocks
      ensures ok <==> InRange(es, |es|, blocks.Length) && Ordered(es, |es|)
      ensures ok ==> forall b :: 0 <= b < blocks.Length ==> blocks[b] == After(es, |es|, b, old(blocks[b]))
      ensures ok ==> minHash == Lowest(es) && maxHash == Highest(es)
    {
      var hash := 0;
      minHash, maxHash := MAX_HASH, 0;
      ghost var was := blocks[..];
      for i := 0 to |es|
        invariant hash == if i == 0 then 0 else Separator(es, i - 1)
        invariant InRange(es, i, blocks.Length) && Ordered(es, i)
        invariant forall b :: 0 <= b < blocks.Length ==> blocks[..][b] == After(es, i, b, was[b])
        invariant minHash == (if i == 0 then MAX_HASH else 0) && maxHash == hash
      {
        var prevHash := hash;
        hash := Separator(es, i);
        if Target(es, i) >= blocks.Length || hash < prevHash {
          return false, minHash, maxHash;
        }
        MarkBlock(es, i);
        if hash < minHash {
          minHash := hash;
        }
        if hash > maxHash {
          maxHash := hash;
        }
      }
      ok := true;
    }

    /** What check_dir_block and parse_int_node do with the root block. */
    method ReadRoot(r: Root, blockSize: nat, csum: bool, maxLevels: nat) returns (ok: bool)
      requires blocks.Length > 0 && r.ExpectedLimit(blockSize, csum) == |r.entries|
      requires forall b :: 0 <= b < blocks.Length ==> blocks[b] == Fresh()
      modifies blocks, this`depth
      ensures ok <==> && GoodRoot(r, maxLevels) && GoodCount(r, blockSize, csum)
                      && InRange(r.Used(), |r.Used()|, blocks.Length) && Ordered(r.Used(), |r.Used()|)
      ensures ok ==> depth == r.levels + 1 && RootRead(blocks[0], r.Used()) && blocks[0].previous < blocks.Length
      ensures ok ==> blocks[0].minHash == Lowest(r.Used()) && blocks[0].maxHash == Highest(r.Used())
      ensures ok ==> forall b :: 0 < b < blocks.Length ==> blocks[b] == After(r.Used(), |r.Used()|, b, Fresh())
    {
      blocks[0] := blocks[0].(kind := RootBlock, first := true, last := true);
      if r.reserved != 0 || r.infoLength < 8 || r.levels >= maxLevels {
        return false;
      }
      depth := r.levels + 1;
      if r.limit != r.ExpectedLimit(blockSize, csum) || r.count > r.ExpectedLimit(blockSize, csum) {
        return false;
      }
      var minHash, maxHash;
      ok, minHash, maxHash := ParseEntries(r.entries[..r.count]);
      if ok {
        AfterFlags(r.Used(), |r.Used()|, 0, RootStart());
        AfterPrevious(r.Used(), |r.Used()|, 0, RootStart(), blocks.Length);
        blocks[0] := blocks[0].(minHash := minHash, maxHash := maxHash);
      }
    }

    /** The names of a leaf block, by their hashes. */
    method ScanLeaf(b: nat, hashes: seq<nat>)
      requires b < blocks.Length && forall i :: 0 <= i < |hashes| ==> hashes[i] <= MAX_HASH
      modifies blocks
      ensures Spans(hashes, |hashes|, blocks[b].minHash, blocks[b].maxHash)
      ensures blocks[..] == old(blocks[..])[b := Observed(old(blocks[b]), blocks[b].minHash, blocks[b].maxHash)]
    {
      assert Spans(hashes, 0, MAX_HASH, 0);
      hide Spans;
      blocks[b] := blocks[b].(kind := Leaf, minHash := MAX_HASH, maxHash := 0);
      for i := 0 to |hashes|
        invariant Spans(hashes, i, blocks[b].minHash, blocks[b].maxHash)
        invariant blocks[..] == old(blocks[..])[b := Observed(old(blocks[b]), blocks[b].minHash, blocks[b].maxHash)]
      {
        SpansMore(hashes, i, blocks[b].minHash, blocks[b].maxHash);
        if hashes[i] < blocks[b].minHash {
          blocks[b] := blocks[b].(minHash := hashes[i]);
        }
        if hashes[i] > blocks[b].maxHash {
          blocks[b] := blocks[b].(maxHash := hashes[i]);
        }
      }
    }

    /** All blocks but the root are leaves. */
    method ScanLeaves(names: seq<seq<nat>>)
      requires |names| == blocks.Length > 0 && AllHashes(names)
      modifies blocks
      ensures blocks[0] == old(blocks[0])
      ensures forall b :: 0 < b < blocks.Length ==> LeafRead(blocks[b], old(blocks[b]), names[b])
    {
      for b := 1 to blocks.Length
        invariant blocks[0] == old(blocks[0])
        invariant forall x :: b <= x < blocks.Length ==> blocks[x] == old(blocks[x])
        invariant forall x :: 0 < x < b ==> LeafRead(blocks[x], old(blocks[x]), names[x])
      {
        ghost var was := blocks[..];
        ScanLeaf(b, names[b]);
        assert forall x :: 0 <= x < blocks.Length && x != b ==> blocks[..][x] == was[x];
      }
    }

    /** The turn of update_parents for block `b`. */
    method UpdateParent(b: nat)
      requires UnderRoot(blocks[..]) && b < blocks.Length
      modifies blocks
      ensures forall x :: 0 <= x < blocks.Length ==> SameShape(old(blocks[x]), blocks[x])
      ensures old(blocks[0]).previous == 0 ==> forall x :: 0 < x < blocks.Length ==> blocks[x] == old(blocks[x])
      ensures var db, root := old(blocks[b]), old(blocks[0]);
              && blocks[0] == root.(minHash := if db.first then db.minHash else root.minHash,
                                    maxHash := if db.last then db.maxHash else root.maxHash)
              && forall x :: 0 < x < blocks.Length ==>
                   blocks[x] == if db.first && x == root.previous then old(blocks[x]).(nodeMax := db.minHash)
                                else old(blocks[x])
    {
      hide SameShape;
      ghost var was := blocks[..];
      var db := blocks[b];
      assert UnderRootAt(blocks[..], b) && UnderRootAt(blocks[..], 0);
      if db.first {
        PassMinimum(db.parent, db.minHash);
      }
      ghost var now := blocks[..];
      if db.last {
        blocks[db.parent] := blocks[db.parent].(maxHash := db.maxHash);
        assert blocks[..] == now[0 := now[0].(maxHash := db.maxHash)];
      }
      forall x | 0 <= x < blocks.Length ensures SameShape(was[x], blocks[x]) {
        ShapeKept(was[x], blocks[x].minHash, blocks[x].maxHash, blocks[x].nodeMax);
      }
    }

    method PassMinimum(p: nat, lo: nat)
      requires p < blocks.Length && blocks[p].previous < blocks.Length && p == 0
      modifies blocks
      ensures blocks[0] == old(blocks[0]).(minHash := lo)
      ensures forall x :: 0 < x < blocks.Length ==>
                blocks[x] == if x == old(blocks[0]).previous then old(blocks[x]).(nodeMax := lo) else old(blocks[x])
    {
      blocks[p] := blocks[p].(minHash := lo);
      var previous := blocks[p].previous;
      if previous != 0 {
        blocks[previous] := blocks[previous].(nodeMax := blocks[p].minHash);
      }
    }

    /** update_parents, under the root alone. */
    method UpdateParents(kind: Kind)
      requires UnderRoot(blocks[..])
      modifies blocks
      ensures UnderRoot(blocks[..])
      ensures forall b :: 0 <= b < blocks.Length ==> SameShape(old(blocks[b]), blocks[b])
      ensures old(blocks[0]).previous == 0 ==> forall b :: 0 < b < blocks.Length ==> blocks[b] == old(blocks[b])
      ensures blocks.Length > 0 && old(blocks[0]).kind != kind ==>
                && blocks[0].minHash == FirstMin(old(blocks[..]), blocks.Length, kind)
                && blocks[0].maxHash == LastMax(old(blocks[..]), blocks.Length, kind)
    {
      ghost var was := blocks[..];
      for b := 0 to blocks.Length
        invariant SameShapes(was, blocks[..])
        invariant was[0].previous == 0 ==> forall x :: 0 < x < blocks.Length ==> blocks[x] == old(blocks[x])
        invariant was[0].kind != kind ==>
                    && blocks[0].minHash == FirstMin(was, b, kind) && blocks[0].maxHash == LastMax(was, b, kind)
                    && forall x :: 0 < x < blocks.Length ==>
                         blocks[x].minHash == was[x].minHash && blocks[x].maxHash == was[x].maxHash
      {
        assert SameShapeAt(was, blocks[..], b);
        ShapeUnderRoot(was, blocks[..]);
        if blocks[b].kind == kind {
          ghost var now := blocks[..];
          assert SameShapeAt(was, now, 0);
          UpdateParent(b);
          ShapesJoin(was, now, blocks[..]);
        }
      }
      ShapeUnderRoot(was, blocks[..]);
      forall b | 0 <= b < blocks.Length ensures SameShape(was[b], blocks[b]) {
        assert SameShapeAt(was, blocks[..], b);
      }
    }

    /** htree_depth: the steps to the root, given up after MAX_DEPTH of them. */
    method Depth(b: nat) returns (d: nat)
      requires b < blocks.Length && UnderRoot(blocks[..])
      ensures d == if blocks[b].kind == RootBlock then 0 else if blocks[0].kind == RootBlock then 1 else MAX_DEPTH
    {
      d := 0;
      var x := b;
      while blocks[x].kind != RootBlock && d < MAX_DEPTH
        invariant x < blocks.Length && d <= MAX_DEPTH && x == if d == 0 then b else 0
        invariant d > 0 ==> blocks[b].kind != RootBlock
        invariant d > 1 ==> blocks[0].kind != RootBlock
        decreases MAX_DEPTH - d
      {
        assert UnderRootAt(blocks[..], x);
        x := blocks[x].parent;
        d := d + 1;
      }
    }

    /** The comparison of the records at the end of pass 2: how many problems there are. */
    method Compare() returns (bad: nat)
      requires UnderRoot(blocks[..]) && blocks[0].kind == RootBlock
      ensures bad == 0 <==> forall b :: 0 <= b < blocks.Length ==> Fine(blocks[b], b, depth)
    {
      bad := 0;
      for b := 0 to blocks.Length
        invariant bad == 0 <==> forall x :: 0 <= x < b ==> Fine(blocks[x], x, depth)
      {
        var db := blocks[b];
        if !db.first && db.minHash < db.nodeMin {
          bad := bad + 1;
        }
        if db.kind == Leaf {
          var d := Depth(b);
          if d != depth {
            bad := bad + 1;
          }
        }
        if b > 0 && db.maxHash > db.nodeMax {
          bad := bad + 1;
        }
        if !db.referenced {
          bad := bad + 1;
        } else if db.dupRef {
          bad := bad + 1;
        }
      }
    }

    /** Pass 2 on a hashed directory whose only interior block is the root: no problem is reported
        if and only if the index can be relied upon. */
    method CheckIndex(r: Root, blockSize: nat, csum: bool, maxLevels: nat, names: seq<seq<nat>>)
      returns (reported: bool)
      requires |names| == blocks.Length > 0 && AllHashes(names) && AllEnts(r.entries)
      requires r.ExpectedLimit(blockSize, csum) == |r.entries|
      requires forall b :: 0 <= b < blocks.Length ==> blocks[b] == Fresh()
      modifies blocks, this`depth
      ensures !reported <==> && GoodRoot(r, maxLevels) && GoodCount(r, blockSize, csum)
                             && GoodIndex(r.Used(), names) && (|names| > 1 ==> r.levels == 0)
    {
      ghost var es := r.Used();
      var ok := ReadRoot(r, blockSize, csum, maxLevels);
      if !ok {
        return true;
      }
      ScanLeaves(names);
      if blocks[0].referenced {
        blocks[0] := blocks[0].(dupRef := true);
      } else {
        blocks[0] := blocks[0].(referenced := true);
      }
      forall b | 0 <= b < blocks.Length ensures UnderRootAt(blocks[..], b) {
        if b > 0 {
          AfterFlags(es, |es|, b, Fresh());
          AfterPrevious(es, |es|, b, Fresh(), blocks.Length);
        }
      }
      UpdateParents(Leaf);
      UpdateParents(Node);
      var bad := Compare();
      reported := bad > 0;
      if !reported {
        FineMeansGood(blocks[..], es, names, depth);
      } else if GoodIndex(es, names) && (|names| > 1 ==> depth == 1) {
        forall b | 0 <= b < blocks.Length ensures Fine(blocks[b], b, depth) {
          GoodMeansFine(blocks[..], es, names, depth, b);
        }
      }
    }
  }
}

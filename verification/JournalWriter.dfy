/**
  Writing a transaction into the journal, as debugfs does: descriptor blocks followed by the
  blocks they describe, then revoke blocks, then a commit block.
 */
module JournalWriter {
  import opened Widths
  import opened JournalFormat
  import opened JournalRevoke

  /** A block to be logged: where it belongs in the file system, and what it holds. */
  datatype Item = Item(blk: nat, data: Block)

  // ---------------------------------------------------------------- what is in the log

  /** A block that begins with the journal's magic number is stored with that word cleared. */
  function Escaped(d: Block): Block
    requires |d| >= 4
  {
    if Be32(d, 0) == MAGIC then Put32(d, 0, 0) else d
  }

  lemma {:induction false} EscapedLength(d: Block)
    requires |d| >= 4
    ensures |Escaped(d)| == |d|
  {
  }

  function Numbers(items: seq<Item>): (ns: seq<nat>)
    ensures |ns| == |items| && forall k :: 0 <= k < |items| ==> ns[k] == items[k].blk % U32
  {
    seq(|items|, i requires 0 <= i < |items| => items[i].blk % U32)
  }

  /** The tag that an item is given: as much of its block number as the format holds, and whether its
      block has to be escaped. */
  function TagFor(c: Config, item: Item): Tag
    requires |item.data| >= 4
  {
    Tag(item.blk % U32, if c.wide then item.blk / U32 % U32 else 0, Be32(item.data, 0) == MAGIC)
  }

  predicate AllTaggable(items: seq<Item>)
  {
    forall k :: 0 <= k < |items| ==> |items[k].data| >= 4
  }

  function TagList(c: Config, items: seq<Item>): (ts: seq<Tag>)
    requires AllTaggable(items)
    ensures |ts| == |items| && forall k :: 0 <= k < |items| ==> ts[k] == TagFor(c, items[k])
  {
    seq(|items|, i requires 0 <= i < |items| => TagFor(c, items[i]))
  }

  /** At block `p` of the log there is a descriptor of transaction `tid` whose tags are exactly
      those of `items`, and the items follow it. */
  predicate DescAt(c: Config, log: seq<Block>, p: nat, tid: nat, items: seq<Item>)
  {
    && p + |items| < |log|
    && |log[p]| == c.blockSize && IsControl(log[p], DESCRIPTOR, tid)
    && Tags(c, log[p], HEADER) == Numbers(items)
    && AllTaggable(items) && TagsIn(c, log[p], HEADER) == TagList(c, items)
    && forall k :: 0 <= k < |items| ==> log[p + 1 + k] == Escaped(items[k].data)
  }

  function Width(groups: seq<seq<Item>>): nat
  {
    if groups == [] then 0 else Width(groups[..|groups| - 1]) + 1 + |groups[|groups| - 1]|
  }

  function Flat<T>(groups: seq<seq<T>>): seq<T>
  {
    if groups == [] then [] else Flat(groups[..|groups| - 1]) + groups[|groups| - 1]
  }

  /** Descriptors for `groups`, one after the other from block `p` on. */
  predicate DescsAt(c: Config, log: seq<Block>, p: nat, tid: nat, groups: seq<seq<Item>>)
  {
    groups == [] ||
    (&& DescsAt(c, log, p, tid, groups[..|groups| - 1])
     && DescAt(c, log, p + Width(groups[..|groups| - 1]), tid, groups[|groups| - 1]))
  }

  lemma {:induction false} DescsFrame(c: Config, a: seq<Block>, b: seq<Block>, p: nat, tid: nat, groups: seq<seq<Item>>)
    requires DescsAt(c, a, p, tid, groups) && (|a| == |b| || p + Width(groups) <= |b| || groups == [])
    requires forall k :: p <= k < p + Width(groups) && k < |a| && k < |b| ==> b[k] == a[k]
    ensures DescsAt(c, b, p, tid, groups)
  {
    if groups != [] {
      DescsFrame(c, a, b, p, tid, groups[..|groups| - 1]);
    }
  }

  lemma {:induction false} DescsSnoc(c: Config, log: seq<Block>, p: nat, tid: nat, groups: seq<seq<Item>>, g: seq<Item>)
    requires DescsAt(c, log, p, tid, groups) && DescAt(c, log, p + Width(groups), tid, g)
    ensures DescsAt(c, log, p, tid, groups + [g])
    ensures Width(groups + [g]) == Width(groups) + 1 + |g| && Flat(groups + [g]) == Flat(groups) + g
  {
    assert (groups + [g])[..|groups|] == groups;
  }

  lemma {:induction false} SealedControl(c: Config, b: Block, csum: nat, kind: nat, tid: nat)
    requires c.Valid() && |b| == c.blockSize && csum < U32 && IsControl(b, kind, tid)
    ensures IsControl(Sealed(c, b, csum), kind, tid)
  {
    assert b[..HEADER] == Sealed(c, b, csum)[..HEADER];
    ControlFrame(b, Sealed(c, b, csum), kind, tid);
  }

  /** A descriptor put in front of the items it describes. */
  lemma {:induction false} DescWritten(c: Config, log: seq<Block>, p: nat, tid: nat, desc: Block, items: seq<Item>)
    requires p + |items| < |log| && |desc| == c.blockSize && IsControl(desc, DESCRIPTOR, tid)
    requires AllTaggable(items) && TagsIn(c, desc, HEADER) == TagList(c, items)
    requires forall k :: 0 <= k < |items| ==> log[p + 1 + k] == Escaped(items[k].data)
    ensures DescAt(c, log[p := desc], p, tid, items)
  {
    hide Tags, TagsIn, Numbers, TagList, Escaped, IsControl;
    LowHalves(c, desc, HEADER);
  }

  lemma {:induction false} FlatSnoc<T>(groups: seq<seq<T>>, cur: seq<T>, item: T)
    ensures Flat(groups) + (cur + [item]) == Flat(groups) + cur + [item]
  {
  }

  /** Block `p + i` of the log revokes `blks`. */
  predicate RevAt(c: Config, log: seq<Block>, p: nat, i: nat, tid: nat, blks: seq<nat>)
  {
    p + i < |log| && RevokeIs(c, log[p + i], tid, KeptOf(c, blks))
  }

  /** Revoke blocks for `groups`, one after the other from block `p` on. */
  predicate RevsAt(c: Config, log: seq<Block>, p: nat, tid: nat, groups: seq<seq<nat>>)
  {
    forall i :: 0 <= i < |groups| ==> RevAt(c, log, p, i, tid, groups[i])
  }

  lemma {:induction false} RevsFrame(c: Config, a: seq<Block>, b: seq<Block>, p: nat, tid: nat, groups: seq<seq<nat>>)
    requires RevsAt(c, a, p, tid, groups) && (|a| == |b| || p + |groups| <= |b| || groups == [])
    requires forall k :: p <= k < p + |groups| && k < |a| && k < |b| ==> b[k] == a[k]
    ensures RevsAt(c, b, p, tid, groups)
  {
    forall i | 0 <= i < |groups| ensures RevAt(c, b, p, i, tid, groups[i]) {
      assert RevAt(c, a, p, i, tid, groups[i]);
    }
  }

  lemma {:induction false} RevsSnoc(c: Config, log: seq<Block>, p: nat, tid: nat, groups: seq<seq<nat>>, b: Block,
                                    blks: seq<nat>)
    requires RevsAt(c, log, p, tid, groups) && p + |groups| < |log| && RevokeIs(c, b, tid, KeptOf(c, blks))
    ensures RevsAt(c, log[p + |groups| := b], p, tid, groups + [blks])
    ensures Flat(groups + [blks]) == Flat(groups) + blks
  {
    var log' := log[p + |groups| := b];
    forall i | 0 <= i <= |groups| ensures RevAt(c, log', p, i, tid, (groups + [blks])[i]) {
      if i < |groups| {
        assert RevAt(c, log, p, i, tid, groups[i]);
      }
    }
    assert (groups + [blks])[..|groups|] == groups;
  }

  /** How a transaction's items and revoked numbers were spread over blocks. */
  datatype Written = Written(groups: seq<seq<Item>>, revs: seq<seq<nat>>)

  function Extent(t: Written): nat
  {
    Width(t.groups) + |t.revs|
  }

  predicate PiecesAt(c: Config, log: seq<Block>, p: nat, tid: nat, t: Written)
  {
    DescsAt(c, log, p, tid, t.groups) && RevsAt(c, log, p + Width(t.groups), tid, t.revs)
  }

  predicate CommittedAt(c: Config, log: seq<Block>, p: nat, tid: nat, t: Written)
  {
    && PiecesAt(c, log, p, tid, t)
    && p + Extent(t) < |log| && IsControl(log[p + Extent(t)], COMMIT, tid)
  }

  lemma {:induction false} PiecesFrame(c: Config, a: seq<Block>, b: seq<Block>, p: nat, tid: nat, t: Written)
    requires PiecesAt(c, a, p, tid, t) && (|a| == |b| || p + Extent(t) <= |b| || Extent(t) == 0)
    requires forall k :: p <= k < p + Extent(t) && k < |a| && k < |b| ==> b[k] == a[k]
    ensures PiecesAt(c, b, p, tid, t)
  {
    hide DescsAt, RevsAt;
    DescsFrame(c, a, b, p, tid, t.groups);
    RevsFrame(c, a, b, p + Width(t.groups), tid, t.revs);
  }

  // ---------------------------------------------------------------- replaying what was written

  /** The block that a tag stands for, put back as it was before it was escaped. */
  function Restored(b: Block, t: Tag): Block
    requires |b| >= 4
  {
    if t.escaped then Put32(b, 0, MAGIC) else b
  }

  predicate AllBlocks(c: Config, log: seq<Block>)
  {
    forall p :: 0 <= p < |log| ==> |log[p]| == c.blockSize
  }

  /** What a replay takes from the descriptor at `p`: the numbers of its tags, each with its block. */
  function ReplayOne(c: Config, log: seq<Block>, p: nat): seq<Item>
    requires c.Valid() && AllBlocks(c, log) && p < |log| && p + |TagsIn(c, log[p], HEADER)| < |log|
  {
    var ts := TagsIn(c, log[p], HEADER);
    seq(|ts|, k requires 0 <= k < |ts| => Item(ts[k].low + U32 * ts[k].high, Restored(log[p + 1 + k], ts[k])))
  }

  /** What a replay takes from the descriptors in the blocks [p, end), one after the other. */
  function Replay(c: Config, log: seq<Block>, p: nat, end: nat): seq<Item>
    requires c.Valid() && AllBlocks(c, log)
    decreases end - p
  {
    if p >= end || p >= |log| || p + |TagsIn(c, log[p], HEADER)| >= |log| then []
    else ReplayOne(c, log, p) + Replay(c, log, p + 1 + |TagsIn(c, log[p], HEADER)|, end)
  }

  /** The block numbers that a tag can hold. */
  function Numbered(c: Config): nat { if c.wide then U64 else U32 }

  lemma {:induction false} NumberRead(c: Config, item: Item)
    requires |item.data| >= 4
    ensures TagFor(c, item).low + U32 * TagFor(c, item).high == item.blk <==> item.blk < Numbered(c)
  {
    var low, rest := item.blk % U32, item.blk / U32;
    assert item.blk == low + U32 * rest;
    if c.wide {
      if rest < U32 {
        assert rest % U32 == rest;
      }
    }
  }

  lemma {:induction false} SameBytes(a: Block, b: Block, o: nat, n: nat)
    requires o + n <= |a| && o + n <= |b| && Be(a, o, n) == Be(b, o, n)
    ensures forall k :: o <= k < o + n ==> a[k] == b[k]
    decreases n
  {
    if n > 0 {
      SameBytes(a, b, o, n - 1);
    }
  }

  /** Escaping and putting back gives the block. */
  lemma {:induction false} RestoredEscaped(c: Config, item: Item)
    requires |item.data| >= 4
    ensures Restored(Escaped(item.data), TagFor(c, item)) == item.data
  {
    var d, t := item.data, TagFor(c, item);
    if t.escaped {
      var r := Restored(Escaped(d), t);
      SameBytes(r, d, 0, 4);
      assert |r| == |d| && forall k :: 0 <= k < |d| ==> r[k] == d[k];
    }
  }

  predicate AllNumbered(c: Config, items: seq<Item>)
  {
    forall k :: 0 <= k < |items| ==> items[k].blk < Numbered(c)
  }

  /** A descriptor that was written is replayed as the items it was written for, if and only if the
      format holds their numbers. */
  lemma {:induction false} DescReplayed(c: Config, log: seq<Block>, p: nat, tid: nat, items: seq<Item>)
    requires c.Valid() && AllBlocks(c, log) && DescAt(c, log, p, tid, items)
    ensures |TagsIn(c, log[p], HEADER)| == |items| && |ReplayOne(c, log, p)| == |items|
    ensures ReplayOne(c, log, p) == items <==> AllNumbered(c, items)
  {
    hide TagsIn, Escaped, Restored, TagFor, Tags, IsControl, Numbered;
    var got := ReplayOne(c, log, p);
    forall k | 0 <= k < |items| ensures got[k] == items[k] <==> items[k].blk < Numbered(c) {
      NumberRead(c, items[k]);
      RestoredEscaped(c, items[k]);
    }
    if AllNumbered(c, items) {
      assert got == items;
    }
  }

  /** The first of several descriptors. */
  lemma {:induction false} NoDescs(c: Config, log: seq<Block>, p: nat, tid: nat)
    ensures DescsAt(c, log, p, tid, []) && Width([]) == 0 && Flat<Item>([]) == []
  {
  }

  lemma {:induction false} DescsLast(c: Config, log: seq<Block>, p: nat, tid: nat, front: seq<seq<Item>>,
                                     last: seq<Item>)
    ensures DescsAt(c, log, p, tid, front + [last]) <==>
              DescsAt(c, log, p, tid, front) && DescAt(c, log, p + Width(front), tid, last)
    ensures Width(front + [last]) == Width(front) + 1 + |last| && Flat(front + [last]) == Flat(front) + last
  {
    hide DescAt;
    assert (front + [last])[..|front|] == front;
  }

  lemma {:induction false} DescsFirst(c: Config, log: seq<Block>, p: nat, tid: nat, groups: seq<seq<Item>>)
    requires groups != [] && DescsAt(c, log, p, tid, groups)
    ensures DescAt(c, log, p, tid, groups[0]) && DescsAt(c, log, p + 1 + |groups[0]|, tid, groups[1..])
    ensures Width(groups) == 1 + |groups[0]| + Width(groups[1..]) && Flat(groups) == groups[0] + Flat(groups[1..])
    decreases |groups|
  {
    hide DescAt, DescsAt, Width, Flat;
    var front, last := groups[..|groups| - 1], groups[|groups| - 1];
    assert groups == front + [last];
    DescsLast(c, log, p, tid, front, last);
    if |groups| == 1 {
      assert front == [] && groups[1..] == [];
      NoDescs(c, log, p, tid);
      NoDescs(c, log, p + 1 + |last|, tid);
      assert last + [] == last == [] + last;
    } else {
      DescsFirst(c, log, p, tid, front);
      assert groups[1..] == front[1..] + [last];
      DescsLast(c, log, p + 1 + |front[0]|, tid, front[1..], last);
      assert front[0] + Flat(front[1..]) + last == front[0] + (Flat(front[1..]) + last);
    }
  }

  /** And so are descriptors that were written one after the other. */
  lemma {:induction false} DescsReplayed(c: Config, log: seq<Block>, p: nat, tid: nat, groups: seq<seq<Item>>)
    requires c.Valid() && AllBlocks(c, log) && DescsAt(c, log, p, tid, groups)
    ensures |Replay(c, log, p, p + Width(groups))| == |Flat(groups)|
    ensures Replay(c, log, p, p + Width(groups)) == Flat(groups) <==> AllNumbered(c, Flat(groups))
    decreases |groups|
  {
    hide DescAt, DescsAt, ReplayOne, TagsIn, Numbered;
    if groups != [] {
      DescsFirst(c, log, p, tid, groups);
      InTheLog(c, log, p, tid, groups[0]);
      DescReplayed(c, log, p, tid, groups[0]);
      var q, end := p + 1 + |groups[0]|, p + Width(groups);
      DescsReplayed(c, log, q, tid, groups[1..]);
      assert Replay(c, log, p, end) == ReplayOne(c, log, p) + Replay(c, log, q, end);
      PartsAgree(c, ReplayOne(c, log, p), Replay(c, log, q, end), groups[0], Flat(groups[1..]));
    }
  }

  lemma {:induction false} InTheLog(c: Config, log: seq<Block>, p: nat, tid: nat, items: seq<Item>)
    requires DescAt(c, log, p, tid, items)
    ensures p + |items| < |log|
  {
  }

  lemma {:induction false} PartsAgree(c: Config, a: seq<Item>, b: seq<Item>, a': seq<Item>, b': seq<Item>)
    requires |a| == |a'| && |b| == |b'|
    ensures a + b == a' + b' <==> a == a' && b == b'
    ensures AllNumbered(c, a' + b') <==> AllNumbered(c, a') && AllNumbered(c, b')
  {
    if a + b == a' + b' {
      assert a == (a + b)[..|a|] && b == (a + b)[|a|..];
      assert a' == (a' + b')[..|a|] && b' == (a' + b')[|a|..];
    }
    if AllNumbered(c, a' + b') {
      forall k | 0 <= k < |a'| ensures a'[k].blk < Numbered(c) {
        assert (a' + b')[k] == a'[k];
      }
      forall k | 0 <= k < |b'| ensures b'[k].blk < Numbered(c) {
        assert (a' + b')[|a'| + k] == b'[k];
      }
    }
  }

  // ---------------------------------------------------------------- a descriptor being filled

  /** Where tag `k` of a descriptor begins: the first tag is followed by room for a uuid. */
  function TagAt(c: Config, k: nat): (o: nat)
    ensures o >= HEADER
  {
    if k == 0 then HEADER else TagAt(c, k - 1) + c.TagBytes() + if k == 1 then UUID_LEN else 0
  }

  /** Tag `k` of the descriptor `d` is `t`, and is marked as the last or not. */
  predicate TagIs(c: Config, d: Block, k: nat, t: Tag, last: bool)
    requires |d| == c.blockSize
  {
    && TagAt(c, k) + c.TagBytes() <= c.Room()
    && ReadTag(c, d, TagAt(c, k)) == t
    && SameUuid(d, TagAt(c, k)) == (k > 0)
    && LastTag(d, TagAt(c, k)) == last
  }

  predicate TagOf(c: Config, d: Block, ts: seq<Tag>, done: bool, k: nat)
    requires |d| == c.blockSize && k < |ts|
  {
    TagIs(c, d, k, ts[k], done && k == |ts| - 1)
  }

  /** The first |ts| tags of `d` are `ts`; `done` says whether the last of them is marked. */
  predicate Filled(c: Config, d: Block, ts: seq<Tag>, done: bool)
    requires |d| == c.blockSize
  {
    forall k {:trigger TagOf(c, d, ts, done, k)} :: 0 <= k < |ts| ==> TagOf(c, d, ts, done, k)
  }

  lemma {:induction false} OneTag(c: Config, d: Block, k: nat, t: Tag, last: bool)
    requires |d| == c.blockSize && TagIs(c, d, k, t, last)
    ensures TagsIn(c, d, TagAt(c, k)) == if last then [t] else [t] + TagsIn(c, d, TagAt(c, k + 1))
  {
    assert NextTag(c, d, TagAt(c, k)) == TagAt(c, k + 1);
  }

  lemma {:induction false} FilledStep(c: Config, d: Block, ts: seq<Tag>, done: bool, k: nat)
    requires |d| == c.blockSize && Filled(c, d, ts, done) && k < |ts|
    ensures TagsIn(c, d, TagAt(c, k))
            == if done && k == |ts| - 1 then [ts[k]] else [ts[k]] + TagsIn(c, d, TagAt(c, k + 1))
  {
    assert TagOf(c, d, ts, done, k);
    OneTag(c, d, k, ts[k], done && k == |ts| - 1);
  }

  /** A filled descriptor is read as holding exactly the tags that were put there. */
  lemma {:induction false} FilledTags(c: Config, d: Block, ts: seq<Tag>, done: bool, k: nat)
    requires |d| == c.blockSize && Filled(c, d, ts, done) && k <= |ts|
    requires if done then k < |ts| else TagAt(c, |ts|) + c.TagBytes() > c.Room()
    ensures TagsIn(c, d, TagAt(c, k)) == ts[k..]
    decreases |ts| - k
  {
    hide Filled, TagsIn;
    if k == |ts| {
      NoMoreTagsIn(c, d, TagAt(c, k));
    } else {
      FilledStep(c, d, ts, done, k);
      if done && k == |ts| - 1 {
        assert ts[k..] == [ts[k]];
      } else {
        FilledTags(c, d, ts, done, k + 1);
        HeadAndRest(ts, k);
      }
    }
  }

  lemma {:induction false} HeadAndRest<T>(s: seq<T>, k: nat)
    requires k < |s|
    ensures s[k..] == [s[k]] + s[k + 1..]
  {
  }

  lemma {:induction false} FilledFrame(c: Config, a: Block, b: Block, ts: seq<Tag>, done: bool, end: nat)
    requires |a| == |b| == c.blockSize && Filled(c, a, ts, done) && TagAt(c, |ts|) <= end
    requires forall k :: HEADER <= k < end && k < |a| ==> b[k] == a[k]
    ensures Filled(c, b, ts, done)
  {
    hide ReadTag, SameUuid, LastTag;
    forall k | 0 <= k < |ts| ensures TagOf(c, b, ts, done, k) {
      assert TagOf(c, a, ts, done, k);
      TagAtMonotone(c, k + 1, |ts|);
      ReadTagFrame(c, a, b, TagAt(c, k));
      MarksFrame(a, b, TagAt(c, k));
    }
  }

  lemma {:induction false} MarksFrame(a: Block, b: Block, o: nat)
    requires o + 8 <= |a| && o + 8 <= |b| && forall k :: o <= k < o + 8 ==> a[k] == b[k]
    ensures SameUuid(a, o) == SameUuid(b, o) && LastTag(a, o) == LastTag(b, o)
  {
    BeFrame(a, b, o + 6, 2);
  }

  lemma {:induction false} TagAtMonotone(c: Config, a: nat, b: nat)
    requires a <= b
    ensures TagAt(c, a) <= TagAt(c, b)
    decreases b - a
  {
    if a < b {
      TagAtMonotone(c, a + 1, b);
    }
  }

  /** The eight bytes that every tag has. */
  function TagHead(c: Config, d: Block, o: nat, blk: nat, flags: nat, csum: nat): (e: Block)
    requires o + 8 <= |d| && flags < U16 && csum < U32
    ensures |e| == |d| && Be32(e, o) == blk % U32 && Be16(e, o + 6) == flags
    ensures Be16(e, o + 4) == if c.csum2 && !c.csum3 then csum % U16 else Be16(d, o + 4)
    ensures forall k :: 0 <= k < |d| && !(o <= k < o + 8) ==> e[k] == d[k]
  {
    var d1 := Put32(d, o, blk % U32);
    var d2 := if c.csum2 && !c.csum3 then Put16(d1, o + 4, csum % U16) else d1;
    var d3 := Put16(d2, o + 6, flags);
    BeFrame(d3, d1, o, 4);
    BeFrame(d3, d2, o + 4, 2);
    BeFrame(d1, d, o + 4, 2);
    d3
  }

  /** What follows them in the wider formats. */
  function TagTail(c: Config, d: Block, o: nat, blk: nat, csum: nat): (e: Block)
    requires o + c.TagBytes() <= |d| && csum < U32
    ensures |e| == |d| && (c.wide ==> Be32(e, o + 8) == blk / U32 % U32) && (c.csum3 ==> Be32(e, o + 12) == csum)
    ensures forall k :: 0 <= k < |d| && !(o + 8 <= k < o + c.TagBytes()) ==> e[k] == d[k]
  {
    var d1 := if c.wide then Put32(d, o + 8, blk / U32 % U32) else d;
    var d2 := if c.csum3 then Put32(d1, o + 12, csum) else d1;
    BeFrame(d2, d1, if c.wide then o + 8 else o, 4);
    d2
  }

  /** A tag at offset `o`: block number, flags, and whatever checksum the format asks for. */
  function WithTag(c: Config, d: Block, o: nat, blk: nat, flags: nat, csum: nat): (e: Block)
    requires o + c.TagBytes() <= |d| && flags < U16 && csum < U32
    ensures |e| == |d| && Be32(e, o) == blk % U32 && Be16(e, o + 6) == flags
    ensures c.wide ==> Be32(e, o + 8) == blk / U32 % U32
    ensures c.csum3 ==> Be32(e, o + 12) == csum
    ensures c.csum2 && !c.csum3 ==> Be16(e, o + 4) == csum % U16
    ensures forall k :: 0 <= k < |d| && !(o <= k < o + c.TagBytes()) ==> e[k] == d[k]
  {
    var head := TagHead(c, d, o, blk, flags, csum);
    var e := TagTail(c, head, o, blk, csum);
    BeFrame(e, head, o, 4);
    BeFrame(e, head, o + 4, 2);
    BeFrame(e, head, o + 6, 2);
    e
  }

  /** Where the copy of the uuid goes. */
  function UuidAt(c: Config): (at: nat)
    ensures at == HEADER + 12 * if c.csum3 then 16 else (if c.csum2 then 10 else 8) + if c.wide then 4 else 0
  {
    HEADER + 12 * c.TagBytes()
  }

  /** The copy of the uuid.  Its address is computed in units of whole tags, so it lands twelve
      times as far on as was meant, beyond the first tag in any case. */
  function WithUuid(c: Config, d: Block, uuid: Block): (e: Block)
    requires c.Valid() && |d| == c.blockSize && |uuid| == UUID_LEN
    ensures |e| == |d| && UuidAt(c) + UUID_LEN <= |e| && e[UuidAt(c)..UuidAt(c) + UUID_LEN] == uuid
    ensures forall k :: 0 <= k < HEADER + c.TagBytes() ==> e[k] == d[k]
  {
    var at := UuidAt(c);
    d[..at] + uuid + d[at + UUID_LEN..]
  }

  function Flags(k: nat, last: bool, escape: bool): (f: nat)
    ensures f < U16 && (f / 2 % 2 == 1 <==> k > 0) && (f / 8 % 2 == 1 <==> last) && (f % 2 == 1 <==> escape)
  {
    (if escape then 1 else 0) + (if k > 0 then 2 else 0) + (if last then 8 else 0)
  }

  lemma {:induction false} TagFromFlags(c: Config, e: Block, k: nat, t: Tag, last: bool, flags: nat)
    requires |e| == c.blockSize && TagAt(c, k) + c.TagBytes() <= c.Room()
    requires Be32(e, TagAt(c, k)) == t.low && Be16(e, TagAt(c, k) + 6) == flags
    requires t.high == if c.wide then Be32(e, TagAt(c, k) + 8) else 0
    requires (flags / 2 % 2 == 1 <==> k > 0) && (flags / 8 % 2 == 1 <==> last) && (flags % 2 == 1 <==> t.escaped)
    ensures TagIs(c, e, k, t, last)
  {
  }

  /** The descriptor with one more tag, number `k`. */
  function Tagged(c: Config, d: Block, k: nat, item: Item, last: bool, uuid: Block, csum: nat): (e: Block)
    requires c.Valid() && |d| == c.blockSize && |uuid| == UUID_LEN && csum < U32 && |item.data| >= 4
    requires TagAt(c, k) + c.TagBytes() <= c.Room()
    ensures |e| == |d|
    ensures k == 0 ==> UuidAt(c) + UUID_LEN <= |e| && e[UuidAt(c)..UuidAt(c) + UUID_LEN] == uuid
  {
    var flags := Flags(k, last, Be32(item.data, 0) == MAGIC);
    var e := WithTag(c, d, TagAt(c, k), item.blk, flags, csum);
    if k > 0 then e else WithUuid(c, e, uuid)
  }

  lemma {:induction false} TaggedIs(c: Config, d: Block, k: nat, item: Item, last: bool, uuid: Block, csum: nat)
    requires c.Valid() && |d| == c.blockSize && |uuid| == UUID_LEN && csum < U32 && |item.data| >= 4
    requires TagAt(c, k) + c.TagBytes() <= c.Room()
    ensures var e := Tagged(c, d, k, item, last, uuid, csum);
            TagIs(c, e, k, TagFor(c, item), last) && forall i :: 0 <= i < TagAt(c, k) ==> e[i] == d[i]
  {
    hide TagIs, Be, WithUuid, WithTag;
    var flags := Flags(k, last, Be32(item.data, 0) == MAGIC);
    var e := WithTag(c, d, TagAt(c, k), item.blk, flags, csum);
    TagFromFlags(c, e, k, TagFor(c, item), last, flags);
    if k == 0 {
      UuidKeepsFirst(c, e, uuid, TagFor(c, item), last);
    }
  }

  lemma {:induction false} UuidKeepsFirst(c: Config, e: Block, uuid: Block, t: Tag, last: bool)
    requires c.Valid() && |e| == c.blockSize && |uuid| == UUID_LEN && TagIs(c, e, 0, t, last)
    ensures TagIs(c, WithUuid(c, e, uuid), 0, t, last)
  {
    hide ReadTag, SameUuid, LastTag, WithUuid;
    ReadTagFrame(c, WithUuid(c, e, uuid), e, HEADER);
    MarksFrame(WithUuid(c, e, uuid), e, HEADER);
  }

  lemma {:induction false} OneMoreTag(c: Config, d: Block, items: seq<Item>, item: Item, last: bool, uuid: Block,
                                      csum: nat)
    requires c.Valid() && |d| == c.blockSize && |uuid| == UUID_LEN && csum < U32 && |item.data| >= 4
    requires AllTaggable(items) && Filled(c, d, TagList(c, items), false)
    requires TagAt(c, |items|) + c.TagBytes() <= c.Room()
    ensures AllTaggable(items + [item])
    ensures Filled(c, Tagged(c, d, |items|, item, last, uuid, csum), TagList(c, items + [item]), last)
  {
    hide TagIs, Tagged, TagFor;
    var e, ts, ts' := Tagged(c, d, |items|, item, last, uuid, csum), TagList(c, items), TagList(c, items + [item]);
    TaggedIs(c, d, |items|, item, last, uuid, csum);
    FilledFrame(c, d, e, ts, false, TagAt(c, |items|));
    forall k | 0 <= k < |ts'| ensures TagOf(c, e, ts', last, k) {
      if k < |ts| {
        assert TagOf(c, e, ts, false, k);
      }
    }
  }

  // ---------------------------------------------------------------- room in the log

  /** Another tag fits after the first `k`. */
  predicate HasRoom(c: Config, k: nat)
  {
    TagAt(c, k) + c.TagBytes() <= c.Room()
  }

  /** How far the writer has come, counted from the first descriptor, and how many tags the last
      descriptor has, after `n` items. */
  datatype Pos = Pos(next: nat, k: nat)

  function PosStep(c: Config, p: Pos): Pos
  {
    if HasRoom(c, p.k) then Pos(p.next + 1, p.k + 1) else Pos(p.next + 2, 1)
  }

  function PosAfter(c: Config, n: nat): Pos
  {
    if n == 0 then Pos(1, 0) else PosStep(c, PosAfter(c, n - 1))
  }

  lemma {:induction false} PosGrows(c: Config, m: nat, n: nat)
    requires m <= n
    ensures PosAfter(c, m).next <= PosAfter(c, n).next
    decreases n
  {
    if m < n {
      PosGrows(c, m, n - 1);
    }
  }

  lemma {:induction false} PosPositive(c: Config, n: nat)
    ensures PosAfter(c, n).next > 0
  {
    PosGrows(c, 0, n);
  }

  lemma {:induction false} InFsPrefix(items: seq<Item>, m: nat, n: nat, limit: nat)
    requires m <= n <= |items| && InFs(items, n, limit)
    ensures InFs(items, m, limit)
    decreases n
  {
    if m < n {
      InFsPrefix(items, m, n - 1, limit);
    }
  }

  /** journal_add_blocks_to_trans can take the items: the transaction is open, they belong to the
      file system, and the log is long enough. */
  predicate BlocksFit(c: Config, items: seq<Item>, fsBlocks: nat, start: nat, size: nat)
  {
    InFs(items, |items|, fsBlocks) && (items == [] || start + PosAfter(c, |items|).next <= size)
  }

  function BlocksSpan(c: Config, items: seq<Item>): nat
  {
    if items == [] then 0 else PosAfter(c, |items|).next
  }

  function RevokesSpan(c: Config, blks: seq<nat>): nat
  {
    if blks == [] then 0 else RevokeAfter(c, |blks|).next + 1
  }

  /** The whole request can be written. */
  predicate RequestFits(c: Config, r: Request, fsBlocks: nat, start: nat, size: nat)
  {
    var mid := start + BlocksSpan(c, r.items);
    && BlocksFit(c, r.items, fsBlocks, start, size) && RevokesFit(c, r.revokes, fsBlocks, mid, size)
    && (r.commit ==> mid + RevokesSpan(c, r.revokes) < size)
  }

  /** How many blocks a request takes. */
  function SpanOfRequest(c: Config, r: Request): nat
  {
    BlocksSpan(c, r.items) + RevokesSpan(c, r.revokes) + if r.commit then 1 else 0
  }

  /** Of a request whose numbers are the file system's, whether it fits is a matter of its length. */
  lemma {:induction false} FitsMeansInside(c: Config, r: Request, fsBlocks: nat, start: nat, limit: nat, size: nat)
    requires RequestFits(c, r, fsBlocks, start, limit)
    ensures RequestFits(c, r, fsBlocks, start, size) <==>
              SpanOfRequest(c, r) == 0 || start + SpanOfRequest(c, r) <= size
  {
    hide PosAfter, RevokeAfter;
    PosPositive(c, |r.items|);
  }

  /** Where the revoke blocks have come to, and how many numbers the buffer holds, after `n` of them. */
  function RevokeStep(c: Config, p: Pos): Pos
  {
    if EntryAt(c, p.k + 1) <= c.Room() then Pos(p.next, p.k + 1) else Pos(p.next + 1, 1)
  }

  function RevokeAfter(c: Config, n: nat): Pos
  {
    if n == 0 then Pos(0, 0) else RevokeStep(c, RevokeAfter(c, n - 1))
  }

  lemma {:induction false} RevokeGrows(c: Config, m: nat, n: nat)
    requires m <= n
    ensures RevokeAfter(c, m).next <= RevokeAfter(c, n).next
    decreases n
  {
    if m < n {
      RevokeGrows(c, m, n - 1);
    }
  }

  lemma {:induction false} AllBelowPrefix(blks: seq<nat>, m: nat, n: nat, limit: nat)
    requires m <= n <= |blks| && AllBelow(blks, n, limit)
    ensures AllBelow(blks, m, limit)
    decreases n
  {
    if m < n {
      AllBelowPrefix(blks, m, n - 1, limit);
    }
  }

  /** journal_add_revoke_to_trans can take the numbers. */
  predicate RevokesFit(c: Config, blks: seq<nat>, fsBlocks: nat, start: nat, size: nat)
  {
    AllBelow(blks, |blks|, fsBlocks) && (blks == [] || start + RevokeAfter(c, |blks|).next < size)
  }

  // ---------------------------------------------------------------- the code

  /** `log` differs from `was` only in [from, to). */
  ghost predicate Only(was: seq<Block>, log: seq<Block>, from: nat, to: nat)
  {
    |log| == |was| && forall p :: 0 <= p < |log| && !(from <= p < to) ==> log[p] == was[p]
  }

  lemma {:induction false} OnlyJoin(a: seq<Block>, b: seq<Block>, d: seq<Block>, from: nat, mid: nat, mid': nat,
                                    to: nat)
    requires Only(a, b, from, mid) && Only(b, d, mid', to) && from <= mid' && mid <= to
    ensures Only(a, d, from, to)
  {
  }

  lemma {:induction false} OnlyWider(a: seq<Block>, b: seq<Block>, from: nat, from': nat, to: nat)
    requires Only(a, b, from, to) && from' <= from
    ensures Only(a, b, from', to)
  {
  }

  /** A commit block: the header, and a checksum whose place depends on the format. */
  function CommitBlock(stale: Block, tid: nat, csum: nat): (b: Block)
    requires |stale| >= 1024 && tid < U32 && csum < U32
    ensures |b| == |stale| && IsControl(b, COMMIT, tid)
  {
    var b0 := WithHeader(stale, COMMIT, tid);
    var b := Put32(b0, 16, csum);
    assert b0[..HEADER] == b[..HEADER];
    ControlFrame(b0, b, COMMIT, tid);
    b
  }

  predicate AllBelow(blks: seq<nat>, n: nat, limit: nat)
    requires n <= |blks|
  {
    n == 0 || (AllBelow(blks, n - 1, limit) && blks[n - 1] < limit)
  }

  lemma {:induction false} NothingYet(c: Config, log: seq<Block>, p: nat, tid: nat, items: seq<Item>, limit: nat)
    ensures Only(log, log, p, p) && DescsAt(c, log, p, tid, []) && Width([]) == 0 && Flat<Item>([]) == []
    ensures items == [] ==> InFs(items, 0, limit)
  {
  }

  lemma {:induction false} NothingRevoked(c: Config, log: seq<Block>, p: nat, tid: nat, blks: seq<nat>, limit: nat)
    ensures Only(log, log, p, p) && RevsAt(c, log, p, tid, []) && Flat<nat>([]) == []
    ensures blks == [] ==> AllBelow(blks, 0, limit)
  {
  }

  predicate WholeAt(items: seq<Item>, i: nat, blockSize: nat)
    requires i < |items|
  {
    |items[i].data| == blockSize
  }

  /** Every item holds exactly one block. */
  predicate AllWhole(items: seq<Item>, blockSize: nat)
  {
    forall i :: 0 <= i < |items| ==> WholeAt(items, i, blockSize)
  }

  /** The first `n` items belong to a file system of `limit` blocks. */
  predicate InFs(items: seq<Item>, n: nat, limit: nat)
    requires n <= |items|
  {
    n == 0 || (InFs(items, n - 1, limit) && items[n - 1].blk < limit)
  }

  class Transaction {
    const c: Config
    const tid: nat
    const fsBlocks: nat
    const uuid: Block
    const held: nat         // the blocks that the journal has
    const limit: nat        // the blocks that journal_bmap maps, those past the end to block 0
    var log: seq<Block>
    var stray: seq<Block>   // what was written over block 0 of the file system
    var block: nat          // trans->block: the next log block to write
    var isOpen: bool        // J_TRANS_OPEN
    var isCommitted: bool   // J_TRANS_COMMITTED

    /** The log as if it had no end: what was last written to each block, by its number in the log. */
    ghost var all: seq<Block>

    ghost predicate Valid()
      reads this`log, this`all
    {
      && c.Valid() && tid < U32 && |uuid| == UUID_LEN && AllBlocks(c, all)
      && |log| == held <= limit == |all| && log == all[..held]
    }

    /** How many of the blocks [a, b) lie past the end of the log. */
    function Past(a: nat, b: nat): nat
    {
      if b <= held || b <= a then 0 else b - if a < held then held else a
    }

    /** Write one block.  For a journal in an inode, journal_bmap gives block 0 of the file system for a
        block past the end, and says nothing; a device that holds nothing else ends where the log does. */
    method WriteAt(p: nat, b: Block) returns (ok: bool)
      requires Valid() && |b| == c.blockSize
      modifies this`log, this`stray, this`all
      ensures Valid() && ok == (p < limit)
      ensures all == if ok then old(all)[p := b] else old(all)
      ensures log == if p < held then old(log)[p := b] else old(log)
      ensures stray == if held <= p < limit then old(stray) + [b] else old(stray)
    {
      ok := p < limit;
      if p < held {
        log := log[p := b];
      } else if ok {
        stray := stray + [b];
      }
      if ok {
        all := all[p := b];
      }
    }

    constructor (c: Config, tid: nat, fsBlocks: nat, uuid: Block, log: seq<Block>, limit: nat, block: nat)
      requires c.Valid() && tid < U32 && |uuid| == UUID_LEN && |log| <= limit
      requires forall p :: 0 <= p < |log| ==> |log[p]| == c.blockSize
      ensures Valid() && this.c == c && this.tid == tid && this.fsBlocks == fsBlocks && this.uuid == uuid
      ensures held == |log| && this.limit == limit && this.log == log && stray == []
      ensures this.block == block && isOpen && !isCommitted
    {
      this.c, this.tid, this.fsBlocks, this.uuid, this.held, this.limit := c, tid, fsBlocks, uuid, |log|, limit;
      this.log, this.block, stray, isOpen, isCommitted := log, block, [], true, false;
      all := log + seq(limit - |log|, _ => seq(c.blockSize, _ => 0));
    }

    /** The state between two items: descriptors for `groups` are on disk, the items `cur` are
        written after block `jdb`, and `desc` holds their tags but is not written yet. */
    ghost predicate Filling(start: nat, jdb: nat, curr: nat, desc: Block, groups: seq<seq<Item>>, cur: seq<Item>)
      reads this`all
    {
      && |desc| == c.blockSize && IsControl(desc, DESCRIPTOR, tid)
      && DescsAt(c, all, start, tid, groups) && jdb == start + Width(groups)
      && curr == jdb + 1 + |cur| && (cur != [] ==> curr <= |all|)
      && AllTaggable(cur) && forall k :: 0 <= k < |cur| ==> all[jdb + 1 + k] == Escaped(cur[k].data)
    }

    /** A block buffer; what it holds to begin with does not matter. */
    method Getblk() returns (b: Block)
      ensures |b| == c.blockSize
    {
      assert |seq(c.blockSize, i => 0 as Byte)| == c.blockSize;
      b :| |b| == c.blockSize;
    }

    /** Put the descriptor on disk in front of its items. */
    method Flush(ghost start: nat, jdb: nat, ghost curr: nat, desc: Block, ghost groups: seq<seq<Item>>,
                 ghost cur: seq<Item>)
      returns (ok: bool)
      requires Valid() && cur != [] && Filling(start, jdb, curr, desc, groups, cur)
      requires AllTaggable(cur) && TagsIn(c, desc, HEADER) == TagList(c, cur)
      modifies this`log, this`stray, this`all
      ensures Valid() && ok && Only(old(all), all, jdb, jdb + 1)
      ensures old(stray) <= stray && |stray| == |old(stray)| + Past(jdb, jdb + 1)
      ensures DescsAt(c, all, start, tid, groups + [cur])
      ensures Width(groups + [cur]) == Width(groups) + 1 + |cur| && Flat(groups + [cur]) == Flat(groups) + cur
    {
      hide TagsIn, TagList, IsControl, Escaped, DescAt, Sealed;
      ghost var was := all;
      var csum := Checksum(desc);
      var b := Sealed(c, desc, csum);
      TagsInFrame(c, desc, b, HEADER);
      SealedControl(c, desc, csum, DESCRIPTOR, tid);
      ok := WriteAt(jdb, b);
      DescsFrame(c, was, all, start, tid, groups);
      DescWritten(c, was, jdb, tid, b, cur);
      DescsSnoc(c, all, start, tid, groups, cur);
    }

    /** A checksum of the tagged block; how it is computed does not matter here. */
    method Checksum(b: Block) returns (csum: nat)
      ensures csum < U32
    {
      csum :| 0 <= csum < U32;
    }

    /** Write the block of an item that has been tagged. */
    method PutItem(ghost start: nat, ghost jdb: nat, curr: nat, ghost desc: Block, item: Item,
                   ghost groups: seq<seq<Item>>, ghost cur: seq<Item>)
      returns (ok: bool)
      requires Valid() && Filling(start, jdb, curr, desc, groups, cur) && |item.data| == c.blockSize
      modifies this`log, this`stray, this`all
      ensures Valid() && ok == (curr < limit) && Only(old(all), all, curr, curr + 1)
      ensures old(stray) <= stray && (ok ==> |stray| == |old(stray)| + Past(curr, curr + 1))
      ensures ok ==> Filling(start, jdb, curr + 1, desc, groups, cur + [item])
    {
      hide Escaped, IsControl, AllBlocks, DescsAt, Width;
      ghost var was := all;
      EscapedLength(item.data);
      ok := WriteAt(curr, Escaped(item.data));
      if ok {
        DescsFrame(c, was, all, start, tid, groups);
      }
    }

    /** Put the tag of an item into the descriptor. */
    method TagItem(desc: Block, k: nat, item: Item, last: bool, ghost cur: seq<Item>) returns (desc': Block)
      requires Valid() && |desc| == c.blockSize && IsControl(desc, DESCRIPTOR, tid) && k == |cur|
               && |item.data| == c.blockSize
      requires AllTaggable(cur) && Filled(c, desc, TagList(c, cur), false) && TagAt(c, k) + c.TagBytes() <= c.Room()
      ensures |desc'| == c.blockSize && IsControl(desc', DESCRIPTOR, tid)
      ensures AllTaggable(cur + [item]) && Filled(c, desc', TagList(c, cur + [item]), last)
    {
      var csum := Checksum(item.data);
      desc' := Tagged(c, desc, k, item, last, uuid, csum);
      TaggedIs(c, desc, k, item, last, uuid, csum);
      OneMoreTag(c, desc, cur, item, last, uuid, csum);
      assert desc[..HEADER] == desc'[..HEADER];
      ControlFrame(desc, desc', DESCRIPTOR, tid);
    }

    /** The whole state of the loop, after the items Flat(groups) + cur. */
    ghost predicate Loaded(start: nat, f: Filler, groups: seq<seq<Item>>, cur: seq<Item>, done: bool)
      reads this`all
    {
      && start <= f.jdb && f.k == |cur| && Filling(start, f.jdb, f.curr, f.desc, groups, cur)
      && Filled(c, f.desc, TagList(c, cur), done)
    }

    /** How many blocks have been written past the end, once the first descriptor was begun at `start`:
        all up to f.curr but the descriptor that is being filled. */
    ghost function Strays(start: nat, f: Filler): nat
    {
      Past(start, f.jdb) + Past(f.jdb + 1, f.curr)
    }

    /** After a descriptor has been put on disk. */
    lemma {:induction false} StartsAfresh(start: nat, f: Filler, groups: seq<seq<Item>>)
      requires start <= f.jdb < f.curr && |f.desc| == c.blockSize && IsControl(f.desc, DESCRIPTOR, tid)
      requires DescsAt(c, all, start, tid, groups) && f.curr == start + Width(groups)
      ensures var f' := Filler(f.curr, f.curr + 1, f.desc, 0);
              Loaded(start, f', groups, [], false) && Strays(start, f') == Strays(start, f) + Past(f.jdb, f.jdb + 1)
    {
    }

    /** If no further tag fits, put the descriptor on disk and begin another one. */
    method MakeRoom(ghost start: nat, f: Filler, ghost groups: seq<seq<Item>>, ghost cur: seq<Item>)
      returns (f': Filler, ghost groups': seq<seq<Item>>, ghost cur': seq<Item>)
      requires Valid() && Loaded(start, f, groups, cur, false)
      modifies this`log, this`stray, this`all
      ensures Valid() && Only(old(all), all, f.jdb, f.jdb + 1) && f.jdb <= f'.jdb < f'.curr && f.curr <= f'.curr
      ensures Loaded(start, f', groups', cur', false) && HasRoom(c, f'.k)
      ensures if HasRoom(c, f.k) then f'.curr == f.curr && f'.k == f.k else f'.curr == f.curr + 1 && f'.k == 0
      ensures old(stray) <= stray && |stray| + Strays(start, f) == |old(stray)| + Strays(start, f')
      ensures Flat(groups') + cur' == Flat(groups) + cur
    {
      hide IsControl, AllBlocks, TagsIn, Filled, DescsAt, TagList, Strays;
      f', groups', cur' := f, groups, cur;
      if TagAt(c, f.k) + c.TagBytes() > c.Room() {
        FilledTags(c, f.desc, TagList(c, cur), false, 0);
        var ok := Flush(start, f.jdb, f.curr, f.desc, groups, cur);
        StartsAfresh(start, f, groups + [cur]);
        f', groups', cur' := Filler(f.curr, f.curr + 1, f.desc, 0), groups + [cur], [];
      }
    }

    /** Tag one item and write it. */
    method PlaceItem(ghost start: nat, f: Filler, item: Item, last: bool, ghost groups: seq<seq<Item>>,
                     ghost cur: seq<Item>)
      returns (ok: bool, f': Filler)
      requires Valid() && |item.data| == c.blockSize && Loaded(start, f, groups, cur, false) && HasRoom(c, f.k)
      modifies this`log, this`stray, this`all
      ensures Valid() && ok == (f.curr < limit) && f'.curr == f.curr + 1 && f'.k == f.k + 1
      ensures Only(old(all), all, f.curr, f.curr + 1)
      ensures old(stray) <= stray && (ok ==> |stray| + Strays(start, f) == |old(stray)| + Strays(start, f'))
      ensures ok ==> Loaded(start, f', groups, cur + [item], last)
    {
      var desc := TagItem(f.desc, f.k, item, last, cur);
      ok := PutItem(start, f.jdb, f.curr, desc, item, groups, cur);
      f' := Filler(f.jdb, f.curr + 1, desc, f.k + 1);
    }

    /** One turn of the loop of journal_add_blocks_to_trans. */
    method AddItem(ghost start: nat, f: Filler, item: Item, last: bool, ghost groups: seq<seq<Item>>,
                   ghost cur: seq<Item>)
      returns (ok: bool, f': Filler, ghost groups': seq<seq<Item>>, ghost cur': seq<Item>)
      requires Valid() && |item.data| == c.blockSize && Loaded(start, f, groups, cur, false)
      modifies this`log, this`stray, this`all
      ensures Valid() && f.curr <= f'.curr && Only(old(all), all, f.jdb, f'.curr)
      ensures ok <==> item.blk < fsBlocks && PosStep(c, Pos(f.curr, f.k)).next <= limit
      ensures ok ==> Pos(f'.curr, f'.k) == PosStep(c, Pos(f.curr, f.k))
      ensures old(stray) <= stray && (ok ==> |stray| + Strays(start, f) == |old(stray)| + Strays(start, f'))
      ensures ok ==> cur' != [] && Loaded(start, f', groups', cur', last)
      ensures ok ==> Flat(groups') + cur' == Flat(groups) + cur + [item]
    {
      hide Filling, Filled, AllBlocks, Strays, Flat;
      f', groups', cur' := MakeRoom(start, f, groups, cur);
      if item.blk >= fsBlocks {
        return false, f', groups', cur';
      }
      ghost var all1, f1 := all, f';
      ok, f' := PlaceItem(start, f', item, last, groups', cur');
      OnlyJoin(old(all), all1, all, f.jdb, f.jdb + 1, f1.curr, f'.curr);
      FlatSnoc(groups', cur', item);
      cur' := cur' + [item];
    }

    /** The first `i` items have been dealt with. */
    ghost predicate Reached(start: nat, f: Filler, groups: seq<seq<Item>>, cur: seq<Item>, items: seq<Item>, i: nat)
      requires i <= |items|
      reads this`all
    {
      && Loaded(start, f, groups, cur, i == |items| > 0) && (i > 0 ==> cur != [])
      && Flat(groups) + cur == items[..i] && InFs(items, i, fsBlocks)
      && f.curr == start + PosAfter(c, i).next && f.k == PosAfter(c, i).k
    }

    /** The loop's turn for item `i`. */
    method NextItem(ghost start: nat, f: Filler, items: seq<Item>, i: nat, ghost groups: seq<seq<Item>>,
                    ghost cur: seq<Item>)
      returns (ok: bool, f': Filler, ghost groups': seq<seq<Item>>, ghost cur': seq<Item>)
      requires Valid() && i < |items| && |items[i].data| == c.blockSize && Reached(start, f, groups, cur, items, i)
      modifies this`log, this`stray, this`all
      ensures Valid() && f.curr <= f'.curr && Only(old(all), all, start, f'.curr)
      ensures ok <==> items[i].blk < fsBlocks && start + PosAfter(c, i + 1).next <= limit
      ensures old(stray) <= stray && (ok ==> |stray| + Strays(start, f) == |old(stray)| + Strays(start, f'))
      ensures ok ==> Reached(start, f', groups', cur', items, i + 1)
    {
      hide Filling, Filled, TagList, Only, Strays;
      ok, f', groups', cur' := AddItem(start, f, items[i], i == |items| - 1, groups, cur);
      OnlyWider(old(all), all, f.jdb, start, f'.curr);
      assert items[..i + 1] == items[..i] + [items[i]];
    }

    /** The descriptor of the last items. */
    method Finish(ghost start: nat, f: Filler, ghost items: seq<Item>, ghost groups: seq<seq<Item>>,
                  ghost cur: seq<Item>)
      returns (ok: bool)
      requires Valid() && items != [] && Reached(start, f, groups, cur, items, |items|)
      modifies this`log, this`stray, this`all
      ensures Valid() && ok && Only(old(all), all, start, f.curr)
      ensures old(stray) <= stray && |stray| + Strays(start, f) == |old(stray)| + Past(start, f.curr)
      ensures DescsAt(c, all, start, tid, groups + [cur])
      ensures f.curr == start + Width(groups + [cur]) && Flat(groups + [cur]) == items
    {
      hide Filled, TagsIn, TagList, IsControl, AllBlocks, DescsAt, Width, Flat, InFs, PosAfter;
      FilledTags(c, f.desc, TagList(c, cur), true, 0);
      ok := Flush(start, f.jdb, f.curr, f.desc, groups, cur);
      OnlyWider(old(all), all, f.jdb, start, f.curr);
      assert items[..|items|] == items;
    }

    /** An empty descriptor, to go to the block the transaction has come to. */
    method Begin(ghost items: seq<Item>) returns (f: Filler)
      requires Valid() && items != []
      ensures f.curr == block + 1 && Reached(block, f, [], [], items, 0) && Strays(block, f) == 0
    {
      var stale := Getblk();
      f := Filler(block, block + 1, WithHeader(stale, DESCRIPTOR, tid), 0);
    }

    /** The loop of journal_add_blocks_to_trans. */
    method AddAll(ghost start: nat, f: Filler, items: seq<Item>)
      returns (ok: bool, f': Filler, ghost groups: seq<seq<Item>>, ghost cur: seq<Item>)
      requires Valid() && AllWhole(items, c.blockSize) && Reached(start, f, [], [], items, 0)
      modifies this`log, this`stray, this`all
      ensures Valid() && f.curr <= f'.curr && Only(old(all), all, start, f'.curr)
      ensures ok <==> items == [] || BlocksFit(c, items, fsBlocks, start, limit)
      ensures old(stray) <= stray && (ok ==> |stray| + Strays(start, f) == |old(stray)| + Strays(start, f'))
      ensures ok ==> Reached(start, f', groups, cur, items, |items|)
    {
      f', groups, cur := f, [], [];
      for i := 0 to |items|
        invariant Valid() && f.curr <= f'.curr && Only(old(all), all, start, f'.curr)
        invariant old(stray) <= stray && |stray| + Strays(start, f) == |old(stray)| + Strays(start, f')
        invariant Reached(start, f', groups, cur, items, i)
      {
        assert WholeAt(items, i, c.blockSize);
        ghost var all1, was := all, f'.curr;
        ok, f', groups, cur := NextItem(start, f', items, i, groups, cur);
        OnlyJoin(old(all), all1, all, start, was, start, f'.curr);
        if !ok {
          NotAll(items, i, start, limit);
          return;
        }
      }
      ok := true;
    }

    lemma {:induction false} NotAll(items: seq<Item>, i: nat, start: nat, size: nat)
      requires i < |items| && (items[i].blk >= fsBlocks || start + PosAfter(c, i + 1).next > size)
      ensures !BlocksFit(c, items, fsBlocks, start, size)
    {
      PosGrows(c, i + 1, |items|);
      if InFs(items, |items|, fsBlocks) {
        InFsPrefix(items, i + 1, |items|, fsBlocks);
      }
    }

    /** journal_add_blocks_to_trans.  On success the items, in order, are in the log after descriptors
        whose tags are theirs, each block in its place or, past the end, over block 0 of the file system;
        a replay of them takes exactly the items from the log if and only if the format holds their
        numbers; and nothing else in the log has changed. */
    method AddBlocks(items: seq<Item>) returns (ok: bool, ghost groups: seq<seq<Item>>)
      requires Valid() && AllWhole(items, c.blockSize)
      modifies this`log, this`stray, this`all, this`block
      ensures Valid() && old(block) <= block && Only(old(all), all, old(block), block) && old(stray) <= stray
      ensures ok <==> isOpen && !isCommitted && BlocksFit(c, items, fsBlocks, old(block), limit)
      ensures ok ==> block == old(block) + BlocksSpan(c, items) && |stray| == |old(stray)| + Past(old(block), block)
      ensures ok ==> DescsAt(c, all, old(block), tid, groups) && Flat(groups) == items
      ensures ok ==> block == old(block) + Width(groups)
      ensures ok ==> (Replay(c, all, old(block), block) == items <==> AllNumbered(c, items))
    {
      hide DescsAt, Flat, Width, Only, InFs, PosAfter, AllWhole, Filling, Filled, Strays;
      groups := [];
      NothingYet(c, all, block, tid, items, fsBlocks);
      if isCommitted || !isOpen {
        return false, groups;
      }
      if |items| == 0 {
        return true, groups;
      }
      var f := Begin(items);
      ghost var cur;
      ok, f, groups, cur := AddAll(block, f, items);
      if ok {
        ghost var all1 := all;
        ok := Finish(block, f, items, groups, cur);
        OnlyJoin(old(all), all1, all, block, f.curr, block, f.curr);
        groups := groups + [cur];
        DescsReplayed(c, all, block, tid, groups);
      }
      block := f.curr;
    }

    // -------------------------------------------------------------- revoke blocks

    /** Revoke blocks for `groups` are on disk, and the buffer holds `cur`. */
    ghost predicate Listing(start: nat, f: Revoker, groups: seq<seq<nat>>, cur: seq<nat>)
      reads this`all
    {
      && |f.buf| == c.blockSize && IsControl(f.buf, REVOKE, tid)
      && f.k == |cur| && EntryAt(c, f.k) <= c.Room() && Listed(c, f.buf, KeptOf(c, cur))
      && f.curr == start + |groups| && RevsAt(c, all, start, tid, groups)
    }

    /** Put the revoke block on disk. */
    method FlushRevoke(ghost start: nat, f: Revoker, ghost groups: seq<seq<nat>>, ghost cur: seq<nat>)
      returns (ok: bool)
      requires Valid() && Listing(start, f, groups, cur)
      modifies this`log, this`stray, this`all
      ensures Valid() && ok == (f.curr < limit) && Only(old(all), all, f.curr, if ok then f.curr + 1 else f.curr)
      ensures old(stray) <= stray && |stray| == |old(stray)| + if ok then Past(f.curr, f.curr + 1) else 0
      ensures ok ==> RevsAt(c, all, start, tid, groups + [cur]) && Flat(groups + [cur]) == Flat(groups) + cur
    {
      hide IsControl, AllBlocks, Listed, EntryAt, RevsAt, Counted, RevokeIs, Flat;
      ghost var was := all;
      var csum := Checksum(f.buf);
      var b := Counted(c, f.buf, f.k, csum);
      CountedIsRevoke(c, f.buf, tid, KeptOf(c, cur), csum);
      ok := WriteAt(f.curr, b);
      if ok {
        RevsSnoc(c, was, start, tid, groups, b, cur);
      }
    }

    /** If no further number fits, put the block on disk and begin another one. */
    method RevokeRoom(ghost start: nat, f: Revoker, ghost groups: seq<seq<nat>>, ghost cur: seq<nat>)
      returns (ok: bool, f': Revoker, ghost groups': seq<seq<nat>>, ghost cur': seq<nat>)
      requires Valid() && Listing(start, f, groups, cur)
      modifies this`log, this`stray, this`all
      ensures Valid() && f.curr <= f'.curr && Only(old(all), all, f.curr, f'.curr)
      ensures ok <==> EntryAt(c, f.k + 1) <= c.Room() || f.curr < limit
      ensures ok ==> if EntryAt(c, f.k + 1) <= c.Room() then f'.curr == f.curr && f'.k == f.k
                     else f'.curr == f.curr + 1 && f'.k == 0
      ensures ok ==> Listing(start, f', groups', cur') && EntryAt(c, f'.k + 1) <= c.Room()
      ensures old(stray) <= stray && |stray| == |old(stray)| + Past(f.curr, f'.curr)
      ensures ok ==> Flat(groups') + cur' == Flat(groups) + cur
    {
      ok, f', groups', cur' := true, f, groups, cur;
      if EntryAt(c, f.k) + EntrySize(c) > c.Room() {
        ok := FlushRevoke(start, f, groups, cur);
        if ok {
          f', groups', cur' := Revoker(f.curr + 1, f.buf, 0), groups + [cur], [];
        }
      }
    }

    /** One turn of the loop of journal_add_revoke_to_trans. */
    method RevokeOne(ghost start: nat, f: Revoker, blk: nat, ghost groups: seq<seq<nat>>, ghost cur: seq<nat>)
      returns (ok: bool, f': Revoker, ghost groups': seq<seq<nat>>, ghost cur': seq<nat>)
      requires Valid() && Listing(start, f, groups, cur)
      modifies this`log, this`stray, this`all
      ensures Valid() && f.curr <= f'.curr && Only(old(all), all, f.curr, f'.curr)
      ensures ok <==> blk < fsBlocks && (EntryAt(c, f.k + 1) <= c.Room() || f.curr < limit)
      ensures ok ==> Pos(f'.curr, f'.k) == RevokeStep(c, Pos(f.curr, f.k)) && Listing(start, f', groups', cur')
      ensures old(stray) <= stray && |stray| == |old(stray)| + Past(f.curr, f'.curr)
      ensures ok ==> Flat(groups') + cur' == Flat(groups) + cur + [blk]
    {
      ok, f', groups', cur' := RevokeRoom(start, f, groups, cur);
      if !ok || blk >= fsBlocks {
        return false, f', groups', cur';
      }
      f' := ListOne(start, f', blk, groups', cur');
      FlatSnoc(groups', cur', blk);
      cur' := cur' + [blk];
    }

    /** Put one number into the buffer. */
    method ListOne(ghost start: nat, f: Revoker, blk: nat, ghost groups: seq<seq<nat>>, ghost cur: seq<nat>)
      returns (f': Revoker)
      requires Valid() && Listing(start, f, groups, cur) && EntryAt(c, f.k + 1) <= c.Room()
      ensures f'.curr == f.curr && f'.k == f.k + 1 && Listing(start, f', groups, cur + [blk])
    {
      var buf := WithEntry(c, f.buf, f.k, blk);
      OneMoreEntry(c, f.buf, cur, blk);
      assert buf[..HEADER] == f.buf[..HEADER];
      ControlFrame(f.buf, buf, REVOKE, tid);
      f' := Revoker(f.curr, buf, f.k + 1);
    }

    /** The first `i` numbers have been dealt with. */
    ghost predicate Revoking(start: nat, f: Revoker, groups: seq<seq<nat>>, cur: seq<nat>, blks: seq<nat>, i: nat)
      requires i <= |blks|
      reads this`all
    {
      && Listing(start, f, groups, cur) && Flat(groups) + cur == blks[..i] && AllBelow(blks, i, fsBlocks)
      && f.curr == start + RevokeAfter(c, i).next && f.k == RevokeAfter(c, i).k
    }

    method NextRevoke(ghost start: nat, f: Revoker, blks: seq<nat>, i: nat, ghost groups: seq<seq<nat>>,
                      ghost cur: seq<nat>)
      returns (ok: bool, f': Revoker, ghost groups': seq<seq<nat>>, ghost cur': seq<nat>)
      requires Valid() && i < |blks| && start <= f.curr && Revoking(start, f, groups, cur, blks, i)
      modifies this`log, this`stray, this`all
      ensures Valid() && f.curr <= f'.curr && Only(old(all), all, start, f'.curr)
      ensures old(stray) <= stray && |stray| == |old(stray)| + Past(f.curr, f'.curr)
      ensures !ok ==> blks[i] >= fsBlocks || start + RevokeAfter(c, i + 1).next > limit
      ensures ok ==> blks[i] < fsBlocks && Revoking(start, f', groups', cur', blks, i + 1)
    {
      ok, f', groups', cur' := RevokeOne(start, f, blks[i], groups, cur);
      OnlyWider(old(all), all, f.curr, start, f'.curr);
      assert blks[..i + 1] == blks[..i] + [blks[i]];
    }

    /** The loop of journal_add_revoke_to_trans. */
    method RevokeAll(ghost start: nat, f: Revoker, blks: seq<nat>)
      returns (ok: bool, f': Revoker, ghost groups: seq<seq<nat>>, ghost cur: seq<nat>)
      requires Valid() && start == f.curr && Listing(start, f, [], [])
      modifies this`log, this`stray, this`all
      ensures Valid() && f.curr <= f'.curr && Only(old(all), all, start, f'.curr)
      ensures old(stray) <= stray && |stray| == |old(stray)| + Past(f.curr, f'.curr)
      ensures !ok ==> blks != [] && !RevokesFit(c, blks, fsBlocks, start, limit)
      ensures ok ==> Revoking(start, f', groups, cur, blks, |blks|)
    {
      hide Valid, Listing, Only, RevokesFit, AllBelow, RevokeAfter, Flat;
      f', groups, cur := f, [], [];
      NothingListed(start, f, blks);
      for i := 0 to |blks|
        invariant Valid() && f.curr <= f'.curr && Only(old(all), all, start, f'.curr)
        invariant old(stray) <= stray && |stray| == |old(stray)| + Past(f.curr, f'.curr)
        invariant Revoking(start, f', groups, cur, blks, i)
      {
        ghost var all1, was := all, f'.curr;
        ok, f', groups, cur := NextRevoke(start, f', blks, i, groups, cur);
        OnlyJoin(old(all), all1, all, start, was, start, f'.curr);
        if !ok {
          NotAllRevoked(blks, i, start, limit);
          return;
        }
      }
      ok := true;
    }

    lemma {:induction false} NothingListed(start: nat, f: Revoker, blks: seq<nat>)
      requires Listing(start, f, [], [])
      ensures Revoking(start, f, [], [], blks, 0) && Only(all, all, start, f.curr)
    {
    }

    lemma {:induction false} NotAllRevoked(blks: seq<nat>, i: nat, start: nat, size: nat)
      requires i < |blks| && (blks[i] >= fsBlocks || start + RevokeAfter(c, i + 1).next > size)
      ensures !RevokesFit(c, blks, fsBlocks, start, size)
    {
      RevokeGrows(c, i + 1, |blks|);
      if AllBelow(blks, |blks|, fsBlocks) {
        AllBelowPrefix(blks, i + 1, |blks|, fsBlocks);
      }
    }

    /** journal_add_revoke_to_trans.  On success the numbers, in order, are what a reader of the
        blocks written takes to be revoked, and nothing else in the log has changed. */
    method AddRevoke(blks: seq<nat>) returns (ok: bool, ghost groups: seq<seq<nat>>)
      requires Valid()
      modifies this`log, this`stray, this`all, this`block
      ensures Valid() && old(block) <= block && Only(old(all), all, old(block), block)
      ensures old(stray) <= stray && |stray| == |old(stray)| + Past(old(block), block)
      ensures ok <==> isOpen && !isCommitted && RevokesFit(c, blks, fsBlocks, old(block), limit)
      ensures ok ==> block == old(block) + RevokesSpan(c, blks)
      ensures ok ==> RevsAt(c, all, old(block), tid, groups) && block == old(block) + |groups| && Flat(groups) == blks
    {
      hide RevsAt, Flat, Only, AllBelow, RevokeAfter;
      groups := [];
      NothingRevoked(c, all, block, tid, blks, fsBlocks);
      if isCommitted || !isOpen {
        return false, groups;
      }
      if |blks| == 0 {
        return true, groups;
      }
      var stale := Getblk();
      var f := Revoker(block, WithHeader(stale, REVOKE, tid), 0);
      ghost var cur;
      ok, f, groups, cur := RevokeAll(block, f, blks);
      if ok {
        ghost var all1 := all;
        ok := FinishRevoke(block, f, blks, groups, cur);
        OnlyJoin(old(all), all1, all, block, f.curr, f.curr, if ok then f.curr + 1 else f.curr);
        groups := groups + [cur];
      }
      block := if ok then f.curr + 1 else f.curr;
    }

    method FinishRevoke(ghost start: nat, f: Revoker, ghost blks: seq<nat>, ghost groups: seq<seq<nat>>,
                        ghost cur: seq<nat>)
      returns (ok: bool)
      requires Valid() && Revoking(start, f, groups, cur, blks, |blks|)
      modifies this`log, this`stray, this`all
      ensures Valid() && ok == (f.curr < limit) && Only(old(all), all, f.curr, if ok then f.curr + 1 else f.curr)
      ensures old(stray) <= stray && |stray| == |old(stray)| + if ok then Past(f.curr, f.curr + 1) else 0
      ensures ok ==> RevsAt(c, all, start, tid, groups + [cur]) && Flat(groups + [cur]) == blks
    {
      ok := FlushRevoke(start, f, groups, cur);
      assert blks[..|blks|] == blks;
    }

    // -------------------------------------------------------------- the commit block

    /** journal_commit_trans.  A commit block past the end of the log commits the transaction, too. */
    method Commit() returns (ok: bool)
      requires Valid()
      modifies this`log, this`stray, this`all, this`block, this`isOpen, this`isCommitted
      ensures Valid() && ok == (old(isOpen) && !old(isCommitted) && old(block) < limit)
      ensures if ok then !isOpen && isCommitted && block == old(block) + 1
                    && IsControl(all[old(block)], COMMIT, tid) && Only(old(all), all, old(block), block)
                    && stray == old(stray) + if old(block) < held then [] else [all[old(block)]]
              else isOpen == old(isOpen) && isCommitted == old(isCommitted) && block == old(block)
                   && all == old(all) && stray == old(stray)
    {
      hide CommitBlock, IsControl, AllBlocks;
      if isCommitted || !isOpen {
        return false;
      }
      var stale := Getblk();
      var csum := Checksum(stale);
      var b := CommitBlock(stale, tid, csum);
      ok := WriteAt(block, b);
      if ok {
        isCommitted, isOpen := true, false;
        block := block + 1;
      }
    }

    // -------------------------------------------------------------- a whole transaction

    method AddPieces(r: Request) returns (ok: bool, ghost groups: seq<seq<Item>>, ghost revs: seq<seq<nat>>)
      requires Valid() && AllWhole(r.items, c.blockSize)
      modifies this`log, this`stray, this`all, this`block
      ensures Valid() && old(block) <= block && Only(old(all), all, old(block), block)
      ensures ok <==> isOpen && !isCommitted && BlocksFit(c, r.items, fsBlocks, old(block), limit)
                      && RevokesFit(c, r.revokes, fsBlocks, old(block) + BlocksSpan(c, r.items), limit)
      ensures old(stray) <= stray && (ok ==> |stray| == |old(stray)| + Past(old(block), block))
      ensures ok ==> Flat(groups) == r.items && Flat(revs) == r.revokes
      ensures ok ==> block == old(block) + Width(groups) + |revs|
      ensures ok ==> block == old(block) + BlocksSpan(c, r.items) + RevokesSpan(c, r.revokes)
      ensures ok ==> DescsAt(c, all, old(block), tid, groups)
      ensures ok ==> RevsAt(c, all, old(block) + Width(groups), tid, revs)
    {
      hide DescAt, RevAt;
      revs := [];
      ok, groups := AddBlocks(r.items);
      if ok {
        ghost var all1, mid := all, block;
        ok, revs := AddRevoke(r.revokes);
        OnlyJoin(old(all), all1, all, old(block), mid, mid, block);
        if ok {
          DescsFrame(c, all1, all, old(block), tid, groups);
        }
      }
    }

    /** The middle of journal_write: blocks, then revoke blocks, then, unless it is to be left out,
        the commit block.  It succeeds if the numbers are the file system's and the blocks can be mapped,
        whether or not the log is long enough; but only if it is long enough does nothing stray. */
    method Write(r: Request) returns (ok: bool, ghost t: Written)
      requires Valid() && AllWhole(r.items, c.blockSize)
      modifies this`log, this`stray, this`all, this`block, this`isOpen, this`isCommitted
      ensures Valid() && old(block) <= block && Only(old(all), all, old(block), block) && old(stray) <= stray
      ensures ok <==> old(isOpen) && !old(isCommitted) && RequestFits(c, r, fsBlocks, old(block), limit)
      ensures ok ==> block == old(block) + SpanOfRequest(c, r) && |stray| == |old(stray)| + Past(old(block), block)
      ensures ok ==> (stray == old(stray) <==> RequestFits(c, r, fsBlocks, old(block), held))
      ensures ok ==> Flat(t.groups) == r.items && Flat(t.revs) == r.revokes
      ensures ok ==> if r.commit then CommittedAt(c, all, old(block), tid, t) && block == old(block) + Extent(t) + 1
                     else PiecesAt(c, all, old(block), tid, t) && block == old(block) + Extent(t)
      ensures ok && r.commit ==> isCommitted
      ensures ok && r.commit && block > held ==> stray != [] && IsControl(stray[|stray| - 1], COMMIT, tid)
      ensures ok && RequestFits(c, r, fsBlocks, old(block), held) ==>
                if r.commit then CommittedAt(c, log, old(block), tid, t) else PiecesAt(c, log, old(block), tid, t)
    {
      hide DescsAt, RevsAt, IsControl, AllBlocks, Flat, BlocksFit, RevokesFit;
      ghost var groups, revs;
      ok, groups, revs := AddPieces(r);
      t := Written(groups, revs);
      if ok && r.commit {
        ghost var all2, end := all, block;
        ok := Commit();
        OnlyJoin(old(all), all2, all, old(block), end, end, block);
        PiecesFrame(c, all2, all, old(block), tid, t);
      }
      if ok {
        ghost var start: nat := old(block);
        FitsMeansInside(c, r, fsBlocks, start, limit, held);
        if block <= held || Extent(t) == 0 {
          PiecesFrame(c, all, log, start, tid, t);
        }
      }
    }
  }

  /** What journal_write is asked to log, and whether to commit it. */
  datatype Request = Request(items: seq<Item>, revokes: seq<nat>, commit: bool)

  /** The variables of journal_add_revoke_to_trans: the next block to write, the buffer, and how
      many numbers it holds. */
  datatype Revoker = Revoker(curr: nat, buf: Block, k: nat)

  /** The writer's variables: where the descriptor will go, the next block to write, the
      descriptor being filled, and how many tags it has. */
  datatype Filler = Filler(jdb: nat, curr: nat, desc: Block, k: nat)
}

/**
  Journals that were written by debugfs, as its readers see them: whatever was logged is found
  again, and the head of the log is where the last committed transaction ends.
 */
module JournalRuns {
  import opened Widths
  import opened JournalFormat
  import opened JournalRevoke
  import opened JournalWriter
  import opened LogWalk
  import R = JournalReaders

  // ---------------------------------------------------------------- transactions back to back

  function ExtentOf(ts: seq<Written>): nat
  {
    if ts == [] then 0 else Extent(ts[0]) + 1 + ExtentOf(ts[1..])
  }

  /** The committed transactions `ts`, numbered from `tid` on, lie one after the other from `p`. */
  predicate RunAt(c: Config, log: seq<Block>, p: nat, tid: nat, ts: seq<Written>)
    decreases |ts|
  {
    ts == [] ||
    (&& CommittedAt(c, log, p, tid, ts[0])
     && RunAt(c, log, p + Extent(ts[0]) + 1, NextTid(tid), ts[1..]))
  }

  lemma {:induction false} RunFrame(c: Config, a: seq<Block>, b: seq<Block>, p: nat, tid: nat, ts: seq<Written>)
    requires RunAt(c, a, p, tid, ts) && |a| == |b|
    requires forall k :: p <= k < p + ExtentOf(ts) && k < |a| ==> b[k] == a[k]
    ensures RunAt(c, b, p, tid, ts)
    decreases |ts|
  {
    hide PiecesAt;
    if ts != [] {
      PiecesFrame(c, a, b, p, tid, ts[0]);
      RunFrame(c, a, b, p + Extent(ts[0]) + 1, NextTid(tid), ts[1..]);
    }
  }

  lemma {:induction false} RunSnoc(c: Config, log: seq<Block>, p: nat, tid: nat, ts: seq<Written>, t: Written)
    requires RunAt(c, log, p, tid, ts) && CommittedAt(c, log, p + ExtentOf(ts), TidAfter(tid, |ts|), t)
    ensures RunAt(c, log, p, tid, ts + [t]) && ExtentOf(ts + [t]) == ExtentOf(ts) + Extent(t) + 1
    ensures TidAfter(tid, |ts| + 1) == NextTid(TidAfter(tid, |ts|))
    decreases |ts|
  {
    hide CommittedAt, NextTid;
    if ts == [] {
      assert [t][1..] == [] && ([] + [t])[0] == t;
    } else {
      assert (ts + [t])[1..] == ts[1..] + [t];
      RunSnoc(c, log, p + Extent(ts[0]) + 1, NextTid(tid), ts[1..], t);
    }
  }

  /** What is on disk is what was asked for. */
  predicate Answers(t: Written, r: Request)
  {
    Flat(t.groups) == r.items && Flat(t.revs) == r.revokes
  }

  lemma {:induction false} NoRun(c: Config, log: seq<Block>, p: nat, tid: nat)
    ensures RunAt(c, log, p, tid, []) && ExtentOf([]) == 0 && TidAfter(tid, 0) == tid
  {
  }

  lemma {:induction false} TidOneMore(tid: nat, n: nat)
    ensures TidAfter(tid, n + 1) == NextTid(TidAfter(tid, n)) < U32
    decreases n
  {
    if n > 0 {
      TidOneMore(NextTid(tid), n - 1);
    }
  }

  // ---------------------------------------------------------------- what the walks see

  function DescChunks(groups: seq<seq<Item>>): seq<Chunk>
  {
    if groups == [] then [] else DescChunks(groups[..|groups| - 1]) + [Blocks(|groups[|groups| - 1]|)]
  }

  function RevChunks(n: nat): seq<Chunk>
  {
    if n == 0 then [] else RevChunks(n - 1) + [Revokes]
  }

  function Pieces(t: Written): seq<Chunk>
  {
    DescChunks(t.groups) + RevChunks(|t.revs|)
  }

  function PiecesOf(ts: seq<Written>): seq<seq<Chunk>>
  {
    if ts == [] then [] else [Pieces(ts[0])] + PiecesOf(ts[1..])
  }

  lemma {:induction false} ChunksAppend(l: Log, v: nat, tid: nat, a: seq<Chunk>, b: seq<Chunk>)
    requires l.Valid() && ChunksAt(l, v, tid, a) && ChunksAt(l, v + SpanOf(a), tid, b)
    ensures ChunksAt(l, v, tid, a + b) && SpanOf(a + b) == SpanOf(a) + SpanOf(b)
    decreases |a|
  {
    hide ChunkAt;
    if a == [] {
      assert a + b == b;
    } else {
      assert (a + b)[1..] == a[1..] + b && (a + b)[0] == a[0];
      ChunksAppend(l, v + Span(a[0]), tid, a[1..], b);
    }
  }

  lemma {:induction false} OneChunk(l: Log, v: nat, tid: nat, a: seq<Chunk>, x: Chunk)
    requires l.Valid() && ChunksAt(l, v, tid, a) && ChunkAt(l, v + SpanOf(a), tid, x)
    ensures ChunksAt(l, v, tid, a + [x]) && SpanOf(a + [x]) == SpanOf(a) + Span(x)
  {
    hide ChunkAt;
    assert [x][0] == x && [x][1..] == [];
    assert SpanOf([x]) == Span(x) + SpanOf([]) && SpanOf([]) == 0;
    assert ChunksAt(l, v + SpanOf(a) + Span(x), tid, []);
    assert ChunksAt(l, v + SpanOf(a), tid, [x]) && SpanOf([x]) == Span(x);
    ChunksAppend(l, v, tid, a, [x]);
  }

  /** A block at `p` of the log is seen for what it is. */
  lemma {:induction false} Seen(j: R.Journal, p: nat, id: nat)
    requires j.Valid() && j.first <= p < j.last
    ensures R.View(j).look(R.View(j).At(p - j.first), id) == R.Look(j.c, j.log[p], id)
  {
    RingOfItself(j.first, j.last, p);
  }

  lemma {:induction false} DescSeen(j: R.Journal, p: nat, tid: nat, items: seq<Item>)
    requires j.Valid() && j.first <= p && p + 1 + |items| <= j.last && DescAt(j.c, j.log, p, tid, items)
    ensures ChunkAt(R.View(j), p - j.first, tid, Blocks(|items|))
  {
    Seen(j, p, tid);
    assert |Tags(j.c, j.log[p], HEADER)| == |items|;
  }

  lemma {:induction false} DescsSeen(j: R.Journal, p: nat, tid: nat, groups: seq<seq<Item>>)
    requires j.Valid() && j.first <= p && p + Width(groups) <= j.last && DescsAt(j.c, j.log, p, tid, groups)
    ensures ChunksAt(R.View(j), p - j.first, tid, DescChunks(groups)) && SpanOf(DescChunks(groups)) == Width(groups)
    decreases |groups|
  {
    hide DescAt, ChunkAt, R.View;
    if groups != [] {
      var rest, g := groups[..|groups| - 1], groups[|groups| - 1];
      DescsSeen(j, p, tid, rest);
      DescSeen(j, p + Width(rest), tid, g);
      OneChunk(R.View(j), p - j.first, tid, DescChunks(rest), Blocks(|g|));
    }
  }

  lemma {:induction false} RevSeen(j: R.Journal, p: nat, tid: nat, revs: seq<seq<nat>>, i: nat)
    requires j.Valid() && j.first <= p && p + i < j.last && i < |revs| && RevsAt(j.c, j.log, p, tid, revs)
    ensures ChunkAt(R.View(j), p + i - j.first, tid, Revokes)
  {
    hide Revoked, KeptOf;
    assert RevAt(j.c, j.log, p, i, tid, revs[i]);
    Seen(j, p + i, tid);
  }

  lemma {:induction false} RevsSeen(j: R.Journal, p: nat, tid: nat, revs: seq<seq<nat>>, n: nat)
    requires j.Valid() && j.first <= p && p + n <= j.last && n <= |revs| && RevsAt(j.c, j.log, p, tid, revs)
    ensures ChunksAt(R.View(j), p - j.first, tid, RevChunks(n)) && SpanOf(RevChunks(n)) == n
    decreases n
  {
    hide RevsAt, ChunkAt, R.View;
    if n > 0 {
      RevsSeen(j, p, tid, revs, n - 1);
      RevSeen(j, p, tid, revs, n - 1);
      OneChunk(R.View(j), p - j.first, tid, RevChunks(n - 1), Revokes);
    }
  }

  /** The blocks of a transaction are walked over one after the other. */
  lemma {:induction false} PiecesSeen(j: R.Journal, p: nat, tid: nat, t: Written)
    requires j.Valid() && j.first <= p && p + Extent(t) <= j.last && PiecesAt(j.c, j.log, p, tid, t)
    ensures ChunksAt(R.View(j), p - j.first, tid, Pieces(t)) && SpanOf(Pieces(t)) == Extent(t)
  {
    hide DescsAt, RevsAt, ChunksAt, R.View;
    DescsSeen(j, p, tid, t.groups);
    RevsSeen(j, p + Width(t.groups), tid, t.revs, |t.revs|);
    ChunksAppend(R.View(j), p - j.first, tid, DescChunks(t.groups), RevChunks(|t.revs|));
  }

  lemma {:induction false} CommitSeen(j: R.Journal, p: nat, tid: nat)
    requires j.Valid() && j.first <= p < j.last && IsControl(j.log[p], COMMIT, tid)
    ensures R.View(j).look(R.View(j).At(p - j.first), tid) == Commit
  {
    Seen(j, p, tid);
  }

  lemma {:induction false} NoPieces()
    ensures PiecesOf([]) == []
  {
  }

  lemma {:induction false} PiecesOfFirst(ts: seq<Written>)
    requires ts != []
    ensures PiecesOf(ts) != [] && PiecesOf(ts)[0] == Pieces(ts[0]) && PiecesOf(ts)[1..] == PiecesOf(ts[1..])
  {
  }

  lemma {:induction false} RunSeen(j: R.Journal, p: nat, tid: nat, ts: seq<Written>)
    requires j.Valid() && j.first <= p && p + ExtentOf(ts) <= j.last && RunAt(j.c, j.log, p, tid, ts)
    ensures TransactionsAt(R.View(j), p - j.first, tid, PiecesOf(ts))
    ensures SpanOfAll(PiecesOf(ts)) == ExtentOf(ts) && |PiecesOf(ts)| == |ts|
    decreases |ts|
  {
    hide PiecesAt, ChunksAt, R.View, IsControl, NextTid, Pieces, Extent, PiecesOf;
    if ts == [] {
      NoPieces();
    } else {
      PiecesSeen(j, p, tid, ts[0]);
      CommitSeen(j, p + Extent(ts[0]), tid);
      RunSeen(j, p + Extent(ts[0]) + 1, NextTid(tid), ts[1..]);
      PiecesOfFirst(ts);
    }
  }

  /** Where the walk comes to after block `p - 1` of the log. */
  function After(j: R.Journal, p: nat): nat
    requires j.Valid()
  {
    Wrap(j.first, j.last, p)
  }

  lemma {:induction false} AfterIsPlace(j: R.Journal, p: nat)
    requires j.Valid() && j.first <= p <= j.last
    ensures R.View(j).At(p - j.first) == After(j, p)
  {
    if p < j.last {
      RingOfItself(j.first, j.last, p);
    } else {
      RingOfItself(j.first, j.last, p - 1);
      assert R.View(j).At(p - j.first) == Wrap(j.first, j.last, R.View(j).At(p - 1 - j.first) + 1);
    }
  }

  /** The log from `p` on: the committed transactions `ts` back to back, numbered from `tid`, then the
      part `rest` of a further one that was not committed, and then a block that is of no transaction
      or of another one than is expected there. */
  predicate Laid(j: R.Journal, p: nat, tid: nat, ts: seq<Written>, rest: Written)
    requires j.Valid()
  {
    var mid, id := p + ExtentOf(ts), (tid + |ts|) % U32;
    var end := mid + Extent(rest);
    && j.first <= p && end <= j.last && RunAt(j.c, j.log, p, tid, ts) && PiecesAt(j.c, j.log, mid, id, rest)
    && R.Look(j.c, j.log[After(j, end)], id) == Foreign
  }

  /** Whatever was committed, and whatever part of a further transaction was written after it:
      journal_find_head stops with the head just past the last commit block and the sequence one
      past its transaction. */
  lemma {:induction false} WrittenHeadIsFound(j: R.Journal, p: nat, tid: nat, ts: seq<Written>, rest: Written)
    requires j.Valid() && tid < U32
    ensures Laid(j, p, tid, ts, rest) ==>
              Find(R.View(j), Walk(After(j, p), tid, After(j, p)), Reads(PiecesOf(ts)) + |Pieces(rest)| + 1)
              == Found(After(j, p + ExtentOf(ts)), (tid + |ts|) % U32)
  {
    hide RunAt, PiecesAt, ChunksAt, TransactionsAt, R.View, R.Look, Find, TidAfter;
    if Laid(j, p, tid, ts, rest) {
      var mid := p + ExtentOf(ts);
      var end := mid + Extent(rest);
      TidArithmetic(tid, |ts|);
      RunSeen(j, p, tid, ts);
      PiecesSeen(j, mid, TidAfter(tid, |ts|), rest);
      AfterIsPlace(j, p);
      AfterIsPlace(j, mid);
      AfterIsPlace(j, end);
      R.LookIs(j, After(j, end), (tid + |ts|) % U32);
      FindsTheHead(R.View(j), p - j.first, tid, PiecesOf(ts), Pieces(rest));
    }
  }

  /** The walk over what was written is over within one read more than there are blocks. */
  lemma {:induction false} WrittenEndsInTime(j: R.Journal, p: nat, tid: nat, ts: seq<Written>, rest: Written)
    requires j.Valid() && tid < U32 && Laid(j, p, tid, ts, rest)
    ensures Find(R.View(j), Walk(After(j, p), tid, After(j, p)), R.End(j) + 1)
            == Found(After(j, p + ExtentOf(ts)), (tid + |ts|) % U32)
  {
    hide Laid, R.View, Find, After;
    var l, w, k := R.View(j), Walk(After(j, p), tid, After(j, p)), Reads(PiecesOf(ts)) + |Pieces(rest)| + 1;
    WrittenHeadIsFound(j, p, tid, ts, rest);
    assert !StillRuns(l, w, k);
    R.SearchEnds(j, w);
    if k <= R.End(j) + 1 {
      FindStays(l, w, k, R.End(j) + 1);
    } else {
      FindStays(l, w, R.End(j) + 1, k);
    }
  }

  /** So journal_find_head itself, on the bytes, returns that head and that sequence. */
  method FindWrittenHead(j: R.Journal, p: nat, tid: nat, ghost ts: seq<Written>, ghost rest: Written)
    returns (r: R.Result)
    requires j.Valid() && j.first > 0 && tid < U32 && Laid(j, p, tid, ts, rest)
    ensures r == R.Head(After(j, p + ExtentOf(ts)), (tid + |ts|) % U32)
  {
    WrittenEndsInTime(j, p, tid, ts, rest);
    hide Laid, R.View, Find;
    r := R.FindHead(j, After(j, p), tid);
  }

  // ---------------------------------------------------------------- what is reported

  /** logdump reports a descriptor that was written as exactly the items that were logged, each with
      the log block that holds its (escaped) contents, and under its own number just if that fits
      32 bits. */
  lemma {:induction false} WrittenIsReported(j: R.Journal, p: nat, tid: nat, items: seq<Item>, i: nat)
    requires j.Valid() && j.first <= p && p + 1 + |items| <= j.last && DescAt(j.c, j.log, p, tid, items) && i < |items|
    ensures var listed := R.Report(Tags(j.c, j.log[p], HEADER), j.first, j.last, Wrap(j.first, j.last, p + 1));
            && |listed| == |items| && listed[i] == R.Logged(items[i].blk % U32, p + 1 + i)
            && (listed[i].fsBlock == items[i].blk <==> items[i].blk < U32)
            && j.log[listed[i].at] == Escaped(items[i].data)
  {
    hide Tags, Escaped, IsControl, R.Report, StepBy, Config.TagBytes, Config.Room;
    R.ReportAt(Tags(j.c, j.log[p], HEADER), j.first, j.last, p + 1, i);
    StepsStraight(j.first, j.last, p + 1, i);
  }

  lemma {:induction false} StepsStraight(first: nat, last: nat, p: nat, n: nat)
    requires first <= p && p + n < last
    ensures StepBy(first, last, p, n) == p + n
    decreases n
  {
    if n > 0 {
      StepsStraight(first, last, p + 1, n - 1);
    }
  }

  /** Data is never taken for a control block. */
  lemma {:induction false} DataIsNoControl(c: Config, d: Block, id: nat)
    requires c.Valid() && |d| == c.blockSize
    ensures R.Look(c, Escaped(d), id) == Foreign
  {
  }
}

/**
  A session of debugfs on a journal: how many blocks a transaction is estimated to take, where the
  next one is put, and what becomes of the transactions before it.
 */
module JournalSession {
  import opened Widths
  import opened JournalFormat
  import opened JournalRevoke
  import opened JournalWriter
  import opened JournalRuns
  import opened LogWalk
  import Bits
  import R = JournalReaders

  // ---------------------------------------------------------------- the estimate

  /** As many whole blocks as `n` entries of `size` bytes fill, if a block has room for `room` bytes. */
  function Whole(n: nat, size: nat, room: nat): (q: nat)
    requires room > 0
    ensures q * room <= n * size
  {
    WholePart(n * size, room);
    n * size / room
  }

  lemma {:induction false} WholePart(bytes: nat, room: nat)
    requires room > 0
    ensures bytes / room >= 0 && bytes / room * room <= bytes
  {
    assert bytes == bytes / room * room + bytes % room;
  }

  /** journal_guess_blocks, for so many blocks and so many revoked numbers. */
  function Guess(c: Config, blocks: nat, revokes: nat): nat
    requires c.Valid()
  {
    1 + Whole(revokes, EntrySize(c), c.Room()) + Whole(blocks, c.TagBytes(), c.Room() - 16) + blocks
  }

  function GuessOf(c: Config, r: Request): nat
    requires c.Valid()
  {
    Guess(c, |r.items|, |r.revokes|)
  }

  lemma {:induction false} TagAtIs(c: Config, k: nat)
    requires k > 0
    ensures TagAt(c, k) == HEADER + UUID_LEN + k * c.TagBytes()
  {
    if k > 1 {
      TagAtIs(c, k - 1);
    }
  }

  lemma {:induction false} EntryAtIs(c: Config, k: nat)
    ensures EntryAt(c, k) == REVOKE_HEADER + k * EntrySize(c)
  {
    if k > 0 {
      EntryAtIs(c, k - 1);
    }
  }

  /** One entry more of `size` bytes, in a block that has `k` already or in a new one. */
  lemma {:induction false} OneEntryMore(n: nat, d: nat, k: nat, size: nat, room: nat)
    requires n * size <= d * room + k * size && k * size <= room
    ensures (n + 1) * size <= d * room + (k + 1) * size && (n + 1) * size <= (d + 1) * room + size
    ensures (k + 1) * size == k * size + size
  {
    assert (n + 1) * size == n * size + size && (d + 1) * room == d * room + room;
  }

  /** The tags of `n` items, and the header and uuid before them, fit the descriptors. */
  lemma {:induction false} TagsInDescriptors(c: Config, n: nat)
    requires c.Valid() && n > 0
    ensures var p := PosAfter(c, n);
            && p.next > n && p.k > 0 && p.k * c.TagBytes() <= c.Room() - 28
            && n * c.TagBytes() <= (p.next - n - 1) * (c.Room() - 28) + p.k * c.TagBytes()
  {
    hide Config.TagBytes, Config.Room;
    if n == 1 {
      FirstTag(c);
    } else {
      TagsInDescriptors(c, n - 1);
      var p := PosAfter(c, n - 1);
      TagAtIs(c, p.k);
      Rooms(c);
      OneEntryMore(n - 1, p.next - n, p.k, c.TagBytes(), c.Room() - 28);
    }
  }

  lemma {:induction false} Rooms(c: Config)
    requires c.Valid()
    ensures c.Room() >= 1020 && c.TagBytes() <= 16
  {
  }

  lemma {:induction false} FirstTag(c: Config)
    requires c.Valid()
    ensures PosAfter(c, 1) == Pos(2, 1) && c.TagBytes() <= c.Room() - 28
  {
    assert PosAfter(c, 0) == Pos(1, 0);
  }

  /** The numbers of `n` revokes, and the header before them, fit the revoke blocks. */
  lemma {:induction false} NumbersInBlocks(c: Config, n: nat)
    requires c.Valid() && n > 0
    ensures var p := RevokeAfter(c, n);
            && p.k > 0 && p.k * EntrySize(c) <= c.Room() - 16
            && n * EntrySize(c) <= p.next * (c.Room() - 16) + p.k * EntrySize(c)
  {
    hide EntrySize, Config.Room;
    Rooms(c);
    if n == 1 {
      FirstNumber(c);
    } else {
      NumbersInBlocks(c, n - 1);
      var p := RevokeAfter(c, n - 1);
      EntryAtIs(c, p.k + 1);
      FirstNumber(c);
      OneEntryMore(n - 1, p.next, p.k, EntrySize(c), c.Room() - 16);
    }
  }

  lemma {:induction false} FirstNumber(c: Config)
    requires c.Valid()
    ensures RevokeAfter(c, 1) == Pos(0, 1) && EntrySize(c) <= c.Room() - 16
  {
    EntryAtIs(c, 1);
    assert RevokeAfter(c, 0) == Pos(0, 0);
  }

  /** Blocks that are not full for every header in them are more than the blocks they would fill. */
  lemma {:induction false} MoreThanFilled(n: nat, size: nat, room: nat, header: nat, d: nat, k: nat)
    requires room > 0 && header > 0 && k * size <= room
    requires n * size <= d * room + k * size
    ensures Whole(n, size, room + header) <= d
  {
    hide Whole;
    assert (d + 1) * room == d * room + room;
    MoreRoom(d + 1, room, header);
    Cancelled(Whole(n, size, room + header), d + 1, room + header);
  }

  lemma {:induction false} MoreRoom(d: nat, room: nat, header: nat)
    requires d > 0 && header > 0
    ensures d * room < d * (room + header)
  {
    assert d * (room + header) == d * room + d * header;
  }

  lemma {:induction false} Monotone(a: nat, b: nat, r: nat)
    requires a <= b
    ensures a * r <= b * r
  {
    assert b * r == a * r + (b - a) * r;
  }

  lemma {:induction false} Cancelled(a: nat, b: nat, r: nat)
    requires a * r < b * r
    ensures a < b
  {
    if b <= a {
      Monotone(b, a, r);
    }
  }

  lemma {:induction false} DescriptorsGuessed(c: Config, n: nat)
    requires c.Valid() && n > 0
    ensures Whole(n, c.TagBytes(), c.Room() - 16) + n < PosAfter(c, n).next
  {
    hide Config.TagBytes, Config.Room, Whole;
    Rooms(c);
    TagsInDescriptors(c, n);
    var p := PosAfter(c, n);
    MoreThanFilled(n, c.TagBytes(), c.Room() - 28, 12, p.next - n - 1, p.k);
  }

  lemma {:induction false} RevokesGuessed(c: Config, n: nat)
    requires c.Valid() && n > 0
    ensures Whole(n, EntrySize(c), c.Room()) <= RevokeAfter(c, n).next
  {
    hide EntrySize, Config.Room, Whole;
    Rooms(c);
    NumbersInBlocks(c, n);
    var p := RevokeAfter(c, n);
    MoreThanFilled(n, EntrySize(c), c.Room() - 16, 16, p.next, p.k);
  }

  lemma {:induction false} NothingFilled(c: Config)
    requires c.Valid()
    ensures Whole(0, c.TagBytes(), c.Room() - 16) == 0 && Whole(0, EntrySize(c), c.Room()) == 0
  {
  }

  /** The estimate leaves out a block for every kind of thing the request has: it is too small for every
      request that is to be committed, unless there is nothing in it. */
  lemma {:induction false} GuessTooSmall(c: Config, r: Request)
    requires c.Valid()
    ensures GuessOf(c, r) + (if r.items != [] then 1 else 0) + (if r.revokes != [] then 1 else 0)
            <= BlocksSpan(c, r.items) + RevokesSpan(c, r.revokes) + 1
    ensures r.commit && (r.items != [] || r.revokes != []) ==> GuessOf(c, r) < SpanOfRequest(c, r)
  {
    hide PosAfter, RevokeAfter, Whole, Config.TagBytes, Config.Room, EntrySize;
    NothingFilled(c);
    if r.items != [] {
      DescriptorsGuessed(c, |r.items|);
    }
    if r.revokes != [] {
      RevokesGuessed(c, |r.revokes|);
    }
  }

  /** journal_open_trans finds room for the request at `start`. */
  predicate Admitted(c: Config, r: Request, start: nat, last: nat)
    requires c.Valid()
  {
    start + GuessOf(c, r) <= last
  }

  /** Exactly where a request is admitted although it does not fit a log that ends at `last`; for a
      request that is to be committed and has something in it there is always such a place, if the log is
      not shorter than the estimate. */
  lemma {:induction false} AdmittedButTooLong(c: Config, r: Request, fsBlocks: nat, limit: nat, start: nat, last: nat)
    requires c.Valid() && RequestFits(c, r, fsBlocks, start, limit) && SpanOfRequest(c, r) > 0
    ensures Admitted(c, r, start, last) && !RequestFits(c, r, fsBlocks, start, last)
            <==> last - SpanOfRequest(c, r) < start <= last - GuessOf(c, r)
    ensures r.commit && (r.items != [] || r.revokes != []) && GuessOf(c, r) <= last ==>
              last - SpanOfRequest(c, r) < last - GuessOf(c, r)
  {
    hide RequestFits;
    FitsMeansInside(c, r, fsBlocks, start, limit, last);
    GuessTooSmall(c, r);
  }

  // ---------------------------------------------------------------- where transactions are put

  /** Where request `i` goes if the first goes to `start`: each is put where the estimate for the one
      before it ends, and not where that one ends. */
  function StartOf(c: Config, start: nat, rs: seq<Request>, i: nat): nat
    requires c.Valid() && i <= |rs|
  {
    if i == 0 then start else StartOf(c, start, rs, i - 1) + GuessOf(c, rs[i - 1]) + 1
  }

  /** The next transaction begins where this one ends. */
  predicate Tight(c: Config, r: Request)
    requires c.Valid()
  {
    GuessOf(c, r) + 1 == SpanOfRequest(c, r)
  }

  ghost predicate AllTight(c: Config, rs: seq<Request>, n: nat)
    requires c.Valid() && n <= |rs|
  {
    forall i :: 0 <= i < n ==> Tight(c, rs[i])
  }

  predicate Loaded(r: Request)
  {
    r.commit && (r.items != [] || r.revokes != [])
  }

  /** What follows such a request never lies behind it; and if it has blocks and revokes, it lies inside. */
  lemma {:induction false} NextIsNotBehind(c: Config, r: Request)
    requires c.Valid() && Loaded(r)
    ensures GuessOf(c, r) + 1 <= SpanOfRequest(c, r)
    ensures r.items != [] && r.revokes != [] ==> GuessOf(c, r) + 1 < SpanOfRequest(c, r)
  {
    GuessTooSmall(c, r);
  }

  /** After a committed request with nothing in it, one block is left out. */
  lemma {:induction false} EmptyLeavesGap(c: Config, r: Request)
    requires c.Valid() && r.commit && r.items == [] && r.revokes == []
    ensures GuessOf(c, r) + 1 == SpanOfRequest(c, r) + 1 == 2
  {
    NothingFilled(c);
  }

  // ---------------------------------------------------------------- the blocks of a transaction

  /** `b` is a control block of a transaction. */
  predicate Controls(b: Block, tid: nat)
  {
    |b| >= HEADER && Be32(b, 0) == MAGIC && Be32(b, 8) == tid
  }

  lemma {:induction false} DescsBlocks(c: Config, log: seq<Block>, p: nat, tid: nat, groups: seq<seq<Item>>, q: nat,
                                       id: nat)
    requires DescsAt(c, log, p, tid, groups) && p <= q < p + Width(groups) && id != tid
    ensures q < |log| && !Controls(log[q], id)
  {
    var front, last := groups[..|groups| - 1], groups[|groups| - 1];
    if q < p + Width(front) {
      DescsBlocks(c, log, p, tid, front, q, id);
    } else if q > p + Width(front) {
      var k := q - p - Width(front) - 1;
      assert log[q] == Escaped(last[k].data);
      EscapedIsNoControl(last[k].data);
    }
  }

  lemma {:induction false} EscapedIsNoControl(d: Block)
    requires |d| >= 4
    ensures Be32(Escaped(d), 0) != MAGIC
  {
  }

  /** No block of a committed transaction is a control block of another one. */
  lemma {:induction false} NoOtherControl(c: Config, log: seq<Block>, p: nat, tid: nat, t: Written, q: nat, id: nat)
    requires CommittedAt(c, log, p, tid, t) && p <= q <= p + Extent(t) && id != tid
    ensures q < |log| && !Controls(log[q], id)
  {
    hide DescsAt;
    if q < p + Width(t.groups) {
      DescsBlocks(c, log, p, tid, t.groups, q, id);
    } else if q < p + Extent(t) {
      var i := q - p - Width(t.groups);
      assert RevAt(c, log, p + Width(t.groups), i, tid, t.revs[i]);
    }
  }

  /** The first block of a transaction is a control block of it. */
  lemma {:induction false} BeginsWithControl(c: Config, log: seq<Block>, p: nat, tid: nat, t: Written)
    requires CommittedAt(c, log, p, tid, t)
    ensures p < |log| && Controls(log[p], tid)
  {
    hide DescsAt;
    if t.groups != [] {
      FirstDescriptor(c, log, p, tid, t.groups);
    } else if t.revs != [] {
      assert RevAt(c, log, p, 0, tid, t.revs[0]);
    }
  }

  lemma {:induction false} FirstDescriptor(c: Config, log: seq<Block>, p: nat, tid: nat, groups: seq<seq<Item>>)
    requires groups != [] && DescsAt(c, log, p, tid, groups)
    ensures p < |log| && Controls(log[p], tid)
  {
    if |groups| > 1 {
      FirstDescriptor(c, log, p, tid, groups[..|groups| - 1]);
    }
  }

  // ---------------------------------------------------------------- what stays of a run

  /** Transaction `i` of a run lies where those before it end. */
  lemma {:induction false} RunPart(c: Config, log: seq<Block>, p: nat, tid: nat, ts: seq<Written>, i: nat)
    requires RunAt(c, log, p, tid, ts) && i < |ts|
    ensures CommittedAt(c, log, p + ExtentOf(ts[..i]), TidAfter(tid, i), ts[i])
    ensures ExtentOf(ts[..i + 1]) == ExtentOf(ts[..i]) + Extent(ts[i]) + 1
    decreases i
  {
    hide CommittedAt, NextTid;
    if i > 0 {
      RunPart(c, log, p + Extent(ts[0]) + 1, NextTid(tid), ts[1..], i - 1);
      assert ts[..i][1..] == ts[1..][..i - 1] && ts[..i + 1][1..] == ts[1..][..i];
    } else {
      assert ts[..1][1..] == [];
    }
  }

  /** A transaction was begun at block `p`. */
  predicate BegunAt(log: seq<Block>, p: nat, tid: nat)
  {
    p < |log| && Controls(log[p], tid)
  }

  /** The requests that were written, what was written for each, and where it was begun. */
  ghost predicate Done(c: Config, log: seq<Block>, start: nat, tid: nat, rs: seq<Request>, ts: seq<Written>)
    requires c.Valid() && |ts| <= |rs|
  {
    && (forall i :: 0 <= i < |ts| ==> Answered(c, ts[i], rs[i]))
    && (forall i :: 0 <= i < |ts| ==> BegunAt(log, StartOf(c, start, rs, i), TidAfter(tid, i)))
  }

  predicate Answered(c: Config, t: Written, r: Request)
  {
    Answers(t, r) && Extent(t) + 1 == SpanOfRequest(c, r)
  }

  /** If the transactions lie back to back, each but the last must have been as long as was estimated. */
  lemma {:induction false} RunIsTight(c: Config, log: seq<Block>, start: nat, tid: nat, rs: seq<Request>,
                                      ts: seq<Written>, n: nat)
    requires c.Valid() && tid < U32 && n < |ts| <= |rs| && (forall i :: 0 <= i < |rs| ==> Loaded(rs[i]))
    requires Done(c, log, start, tid, rs, ts) && RunAt(c, log, start, tid, ts)
    ensures AllTight(c, rs, n) && start + ExtentOf(ts[..n]) == StartOf(c, start, rs, n)
    decreases n
  {
    hide RunAt, CommittedAt, Controls, GuessOf, SpanOfRequest, TidAfter, NextTid, ExtentOf;
    if n == 0 {
      EmptyRun();
    } else {
      RunIsTight(c, log, start, tid, rs, ts, n - 1);
      RunPart(c, log, start, tid, ts, n - 1);
      assert Loaded(rs[n - 1]) && Answered(c, ts[n - 1], rs[n - 1]);
      NextIsNotBehind(c, rs[n - 1]);
      assert BegunAt(log, StartOf(c, start, rs, n), TidAfter(tid, n));
      TidsDiffer(tid, n - 1);
      if !Tight(c, rs[n - 1]) {
        NoOtherControl(c, log, StartOf(c, start, rs, n - 1), TidAfter(tid, n - 1), ts[n - 1],
                       StartOf(c, start, rs, n), TidAfter(tid, n));
        assert false;
      }
    }
  }

  lemma {:induction false} EmptyRun()
    ensures ExtentOf([]) == 0
  {
  }

  lemma {:induction false} TidsDiffer(tid: nat, n: nat)
    requires tid < U32
    ensures TidAfter(tid, n) < U32 && TidAfter(tid, n + 1) == NextTid(TidAfter(tid, n)) != TidAfter(tid, n)
  {
    hide NextTid;
    TidOneMore(tid, n);
    if n > 0 {
      TidOneMore(tid, n - 1);
    }
    NextTidIs(TidAfter(tid, n));
  }

  lemma {:induction false} StartsGrow(c: Config, start: nat, rs: seq<Request>, i: nat, j: nat)
    requires c.Valid() && i < j <= |rs|
    ensures StartOf(c, start, rs, i) < StartOf(c, start, rs, j)
    decreases j
  {
    if i < j - 1 {
      StartsGrow(c, start, rs, i, j - 1);
    }
  }

  // ---------------------------------------------------------------- the code

  class Session {
    const c: Config
    const fsBlocks: nat
    const uuid: Block
    const first: nat           // j_first
    const last: nat            // j_last, which may be less than the blocks the journal has
    const held: nat
    const limit: nat
    var log: seq<Block>
    var stray: seq<Block>      // what was written over block 0 of the file system
    var tail: nat              // j_tail, 0 if the journal is clean
    var tailSequence: nat
    var head: nat
    var sequence: nat          // j_transaction_sequence

    ghost predicate Valid()
      reads this
    {
      && c.Valid() && |uuid| == UUID_LEN && 0 < first < last <= held == |log| <= limit
      && tailSequence < U32 && sequence < U32
      && forall p :: 0 <= p < |log| ==> |log[p]| == c.blockSize
    }

    constructor (c: Config, fsBlocks: nat, uuid: Block, first: nat, last: nat, log: seq<Block>, limit: nat,
                 tail: nat, tailSequence: nat, head: nat, sequence: nat)
      requires c.Valid() && |uuid| == UUID_LEN && 0 < first < last <= |log| <= limit && tailSequence < U32
               && sequence < U32
      requires forall p :: 0 <= p < |log| ==> |log[p]| == c.blockSize
      ensures Valid() && this.c == c && this.fsBlocks == fsBlocks && this.uuid == uuid && this.first == first
      ensures this.last == last && this.log == log && held == |log| && this.limit == limit && stray == []
      ensures this.tail == tail && this.tailSequence == tailSequence && this.head == head && this.sequence == sequence
    {
      this.c, this.fsBlocks, this.uuid, this.first, this.last := c, fsBlocks, uuid, first, last;
      this.log, this.held, this.limit, stray := log, |log|, limit, [];
      this.tail, this.tailSequence, this.head, this.sequence := tail, tailSequence, head, sequence;
    }

    /** Where the next transaction goes, and its number. */
    function Start(): nat reads this { if tail == 0 then first else head }
    function Id(): nat reads this { if tail == 0 then tailSequence else sequence }

    /** journal_write: admitted by the estimate, written, and closed. */
    method Write(r: Request) returns (ok: bool, ghost t: Written)
      requires Valid() && AllWhole(r.items, c.blockSize)
      modifies this
      ensures Valid() && old(stray) <= stray
      ensures var start, id, span := old(Start()), old(Id()), SpanOfRequest(c, r);
              && (ok <==> Admitted(c, r, start, last) && RequestFits(c, r, fsBlocks, start, limit))
              && (forall p :: 0 <= p < held && p < start ==> log[p] == old(log)[p])
              && (ok ==> Only(old(log), log, start, start + span))
              && (ok ==> (stray == old(stray) <==> RequestFits(c, r, fsBlocks, start, held)))
              && (ok && r.commit ==> Answered(c, t, r))
              && (ok && r.commit && start + span <= held ==> CommittedAt(c, log, start, id, t))
              && (ok && r.commit && start + span > held ==>
                    |stray| > |old(stray)| && IsControl(stray[|stray| - 1], COMMIT, id))
      ensures if ok && r.commit then
                && tail == (if old(tail) == 0 then old(Start()) else old(tail))
                && head == old(Start()) + GuessOf(c, r) + 1 && sequence == NextTid(old(Id()))
              else
                && tail == old(tail) && head == old(head)
                && sequence == old(sequence) && tailSequence == old(tailSequence)
    {
      hide RequestFits, IsControl, CommittedAt, PiecesAt, SpanOfRequest, AllWhole, Flat, NextTid;
      var blocks := GuessOf(c, r);
      var start, id := Start(), Id();
      if start + blocks > last {
        return false, Written([], []);
      }
      var trans := new Transaction(c, id, fsBlocks, uuid, log, limit, start);
      ok, t := trans.Write(r);
      log, stray := trans.log, stray + trans.stray;
      if ok && r.commit {
        Wraps(id);
        if tail == 0 {
          tailSequence, tail := id, start;
        }
        head, sequence := start + blocks + 1, NextTid(id);
      }
    }

    lemma {:induction false} Wraps(id: nat)
      ensures NextTid(id) < U32
    {
    }

    /** Request `i` of a run that begins at `start` ends inside the log. */
    predicate Inside(start: nat, rs: seq<Request>, i: nat)
      requires c.Valid() && i < |rs|
    {
      StartOf(c, start, rs, i) + SpanOfRequest(c, rs[i]) <= held
    }

    /** Committing requests one after the other, up to the first that is refused.  If nothing strays, the
        transactions lie back to back if and only if each but the last is as long as was estimated. */
    method WriteAll(rs: seq<Request>) returns (done: nat, ghost ts: seq<Written>)
      requires Valid() && forall i :: 0 <= i < |rs| ==> Loaded(rs[i]) && AllWhole(rs[i].items, c.blockSize)
      modifies this
      ensures Valid() && done == |ts| <= |rs| && forall i :: 0 <= i < done ==> Answered(c, ts[i], rs[i])
      ensures done < |rs| ==> var at := StartOf(c, old(Start()), rs, done);
                !Admitted(c, rs[done], at, last) || !RequestFits(c, rs[done], fsBlocks, at, limit)
      ensures done > 0 ==> head == StartOf(c, old(Start()), rs, done) && sequence == TidAfter(old(Id()), done)
      ensures done == |rs| ==> (stray == old(stray) <==> forall i :: 0 <= i < done ==> Inside(old(Start()), rs, i))
      ensures done == |rs| > 0 && stray == old(stray) ==>
                (RunAt(c, log, old(Start()), old(Id()), ts) <==> AllTight(c, rs, done - 1))
    {
      hide AllWhole, Loaded, Answered, Laying, StartOf, TidAfter, NextTid, Admitted, RequestFits, SpanOfRequest,
           GuessOf, Only;
      ghost var start, id := Start(), Id();
      done, ts := 0, [];
      NothingDone(c, log, start, id, rs);
      while done < |rs|
        invariant Valid() && done == |ts| <= |rs| && old(stray) <= stray && (done > 0 ==> tail != 0)
        invariant Start() == StartOf(c, start, rs, done) && Id() == TidAfter(id, done)
        invariant forall i :: 0 <= i < done ==> Answered(c, ts[i], rs[i])
        invariant stray == old(stray) <==> forall i :: 0 <= i < done ==> Inside(start, rs, i)
        invariant stray == old(stray) ==> Laying(c, log, start, id, rs, ts)
      {
        ghost var was, at, strays := log, Start(), stray;
        assert Loaded(rs[done]);
        IsCommitted(c, rs[done]);
        var ok;
        ghost var t;
        ok, t := Write(rs[done]);
        if !ok {
          return;
        }
        FitsMeansInside(c, rs[done], fsBlocks, at, limit, held);
        assert Inside(start, rs, done) <==> stray == strays;
        if stray == old(stray) {
          assert strays == old(stray);
          OneMoreLaid(c, was, log, start, id, rs, ts, t);
        }
        NextStart(c, start, rs, done);
        TidOneMore(id, done);
        ts, done := ts + [t], done + 1;
      }
      if done > 0 && stray == old(stray) {
        RunOrNot(c, log, start, id, rs, ts);
      }
    }
  }

  lemma {:induction false} IsCommitted(c: Config, r: Request)
    requires c.Valid() && Loaded(r)
    ensures r.commit && SpanOfRequest(c, r) > 0
  {
    NextIsNotBehind(c, r);
  }

  lemma {:induction false} NextStart(c: Config, start: nat, rs: seq<Request>, i: nat)
    requires c.Valid() && i < |rs|
    ensures StartOf(c, start, rs, i + 1) == StartOf(c, start, rs, i) + GuessOf(c, rs[i]) + 1
  {
  }

  /** What is in the log after requests of which none strayed. */
  ghost predicate Laying(c: Config, log: seq<Block>, start: nat, tid: nat, rs: seq<Request>, ts: seq<Written>)
    requires c.Valid() && |ts| <= |rs|
  {
    && Done(c, log, start, tid, rs, ts)
    && (ts != [] && AllTight(c, rs, |ts| - 1) ==>
          && RunAt(c, log, start, tid, ts)
          && start + ExtentOf(ts) == StartOf(c, start, rs, |ts| - 1) + SpanOfRequest(c, rs[|ts| - 1]))
  }

  lemma {:induction false} NothingDone(c: Config, log: seq<Block>, start: nat, tid: nat, rs: seq<Request>)
    requires c.Valid()
    ensures Laying(c, log, start, tid, rs, []) && StartOf(c, start, rs, 0) == start && TidAfter(tid, 0) == tid
  {
  }

  /** One more transaction, put where the estimate for the last one ends. */
  lemma {:induction false} OneMoreLaid(c: Config, log: seq<Block>, log': seq<Block>, start: nat, tid: nat,
                                       rs: seq<Request>, ts: seq<Written>, t: Written)
    requires c.Valid() && |ts| < |rs| && |log| == |log'| && Laying(c, log, start, tid, rs, ts)
    requires forall p :: 0 <= p < |log| && p < StartOf(c, start, rs, |ts|) ==> log'[p] == log[p]
    requires CommittedAt(c, log', StartOf(c, start, rs, |ts|), TidAfter(tid, |ts|), t) && Answered(c, t, rs[|ts|])
    ensures Laying(c, log', start, tid, rs, ts + [t])
  {
    hide RunAt, CommittedAt, Controls, GuessOf, SpanOfRequest, TidAfter, ExtentOf, StartOf;
    var n, all := |ts|, ts + [t];
    DoneOneMore(c, log, log', start, tid, rs, ts, t);
    if AllTight(c, rs, n) {
      if n == 0 {
        NoRun(c, log', start, tid);
        FirstStart(c, start, rs);
        assert ts == [];
      } else {
        assert AllTight(c, rs, n - 1) && Tight(c, rs[n - 1]);
        NextStart(c, start, rs, n - 1);
        RunFrame(c, log, log', start, tid, ts);
      }
      RunSnoc(c, log', start, tid, ts, t);
    }
  }

  lemma {:induction false} FirstStart(c: Config, start: nat, rs: seq<Request>)
    requires c.Valid()
    ensures StartOf(c, start, rs, 0) == start
  {
  }

  lemma {:induction false} DoneOneMore(c: Config, log: seq<Block>, log': seq<Block>, start: nat, tid: nat,
                                       rs: seq<Request>, ts: seq<Written>, t: Written)
    requires c.Valid() && |ts| < |rs| && |log| == |log'| && Done(c, log, start, tid, rs, ts)
    requires forall p :: 0 <= p < |log| && p < StartOf(c, start, rs, |ts|) ==> log'[p] == log[p]
    requires CommittedAt(c, log', StartOf(c, start, rs, |ts|), TidAfter(tid, |ts|), t) && Answered(c, t, rs[|ts|])
    ensures Done(c, log', start, tid, rs, ts + [t])
  {
    hide CommittedAt, Controls, StartOf, TidAfter, Answered;
    var n, all := |ts|, ts + [t];
    forall i | 0 <= i < |all| ensures BegunAt(log', StartOf(c, start, rs, i), TidAfter(tid, i)) {
      if i < n {
        StartsGrow(c, start, rs, i, n);
        assert BegunAt(log, StartOf(c, start, rs, i), TidAfter(tid, i));
      } else {
        BeginsWithControl(c, log', StartOf(c, start, rs, n), TidAfter(tid, n), t);
      }
    }
    forall i | 0 <= i < |all| ensures Answered(c, all[i], rs[i]) {
      if i < n {
        assert all[i] == ts[i] && Answered(c, ts[i], rs[i]);
      } else {
        assert all[i] == t;
      }
    }
  }

  lemma {:induction false} RunOrNot(c: Config, log: seq<Block>, start: nat, tid: nat, rs: seq<Request>,
                                    ts: seq<Written>)
    requires c.Valid() && tid < U32 && 0 < |ts| == |rs| && (forall i :: 0 <= i < |rs| ==> Loaded(rs[i]))
    requires Laying(c, log, start, tid, rs, ts)
    ensures RunAt(c, log, start, tid, ts) <==> AllTight(c, rs, |ts| - 1)
  {
    hide RunAt, AllTight;
    if RunAt(c, log, start, tid, ts) {
      RunIsTight(c, log, start, tid, rs, ts, |ts| - 1);
    }
  }

  // ---------------------------------------------------------------- two inputs

  lemma {:induction false} OneBlock(c: Config, r: Request)
    requires c.Valid() && r.commit && |r.items| == 1 && |r.revokes| <= 1
    ensures GuessOf(c, r) == 2 && SpanOfRequest(c, r) == 3 + |r.revokes|
  {
    hide PosAfter, RevokeAfter, Whole, Config.TagBytes, Config.Room, EntrySize;
    FirstTag(c);
    FirstNumber(c);
    Rooms(c);
    NothingFilled(c);
    OneEntry(c.TagBytes(), c.Room() - 16);
    OneEntry(EntrySize(c), c.Room());
  }

  lemma {:induction false} OneEntry(size: nat, room: nat)
    requires size < room
    ensures Whole(1, size, room) == 0
  {
    Bits.QuotientUnique(size, room, 0, size);
  }

  /** One block to be committed two blocks before the end of the log: it is admitted, reported as written,
      and its commit block goes over block 0 of the file system. */
  method StrayCommit(s: Session, r: Request) returns (ok: bool)
    requires s.Valid() && AllWhole(r.items, s.c.blockSize) && s.Start() + 2 == s.last == s.held < s.limit
    requires |r.items| == 1 && r.revokes == [] && r.commit && r.items[0].blk < s.fsBlocks
    modifies s
    ensures ok && |s.stray| > |old(s.stray)| && IsControl(s.stray[|s.stray| - 1], COMMIT, old(s.Id()))
  {
    OneBlock(s.c, r);
    FirstTag(s.c);
    assert InFs(r.items, 0, s.fsBlocks);
    hide IsControl, CommittedAt, SpanOfRequest;
    ghost var t;
    ok, t := s.Write(r);
  }

  /** A request whose commit block is all that the estimate leaves out, and another after it: the second
      begins on that block, and the search for the head finds neither. */
  method CommitLost(s: Session, r: Request, next: Request, zero: Block) returns (both: bool, found: R.Result)
    requires s.Valid() && s.tail == 0 && |zero| == s.c.blockSize && s.stray == []
    requires Loaded(r) && AllWhole(r.items, s.c.blockSize) && Loaded(next) && AllWhole(next.items, s.c.blockSize)
    requires GuessOf(s.c, r) + 2 == SpanOfRequest(s.c, r)
    modifies s
    ensures both && s.stray == [] ==> found == R.Head(s.first, old(s.tailSequence))
  {
    hide AllWhole, Loaded, Answered, CommittedAt, PiecesAt, NextTid, RequestFits, SpanOfRequest, GuessOf, Only,
         IsControl, Laid;
    both, found := false, R.Nothing;
    IsCommitted(s.c, r);
    IsCommitted(s.c, next);
    var tid := s.tailSequence;
    var ok;
    ghost var t, t';
    ok, t := s.Write(r);
    if !ok {
      return;
    }
    ghost var log := s.log;
    NextTidIs(tid);
    Extents(s.c, t, r);
    both, t' := s.Write(next);
    if both && |s.stray| == 0 {
      var j := R.Journal(s.c, s.first, s.last, s.log, s.limit, zero);
      FitsMeansInside(s.c, r, s.fsBlocks, s.first, s.limit, s.held);
      FitsMeansInside(s.c, next, s.fsBlocks, s.first + Extent(t), s.limit, s.held);
      PositiveGuess(s.c, next);
      LaidButLost(j, log, tid, t, t');
      found := FindWrittenHead(j, s.first, tid, [], t);
      EmptyRun();
    }
  }

  lemma {:induction false} Extents(c: Config, t: Written, r: Request)
    requires Answered(c, t, r)
    ensures Extent(t) + 1 == SpanOfRequest(c, r)
  {
  }

  lemma {:induction false} PositiveGuess(c: Config, r: Request)
    requires c.Valid()
    ensures GuessOf(c, r) > 0
  {
  }

  /** The pieces of the first transaction are there, and then comes a block of another one. */
  lemma {:induction false} LaidButLost(j: R.Journal, log: seq<Block>, tid: nat, t: Written, t': Written)
    requires j.Valid() && tid < U32 && |log| == |j.log| && j.first + Extent(t) < j.last
    requires CommittedAt(j.c, log, j.first, tid, t) && CommittedAt(j.c, j.log, j.first + Extent(t), NextTid(tid), t')
    requires forall p :: 0 <= p < |log| && p < j.first + Extent(t) ==> j.log[p] == log[p]
    ensures Laid(j, j.first, tid, [], t) && After(j, j.first) == j.first
  {
    hide PiecesAt, NextTid;
    NextTidIs(tid);
    PiecesFrame(j.c, log, j.log, j.first, tid, t);
    BeginsWithControl(j.c, j.log, j.first + Extent(t), NextTid(tid), t');
    NoRun(j.c, j.log, j.first, tid);
  }
}

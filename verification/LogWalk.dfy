/**
  Walking a log, block by block, as the two readers in debugfs do: journal_find_head, which looks
  for the end of the last committed transaction before writing another, and logdump.  What a
  reader sees in a block is left open here; JournalReaders fills it in from the bytes.
 */
module LogWalk {
  import opened Widths
  import Bits

  // ---------------------------------------------------------------- positions in the log

  /** `wrap` and `WRAP`: back to the first block, once. */
  function Wrap(first: nat, last: nat, p: nat): nat
    requires first < last
  {
    if p >= last then p - (last - first) else p
  }

  /** One step at a time, wrapping at each. */
  function StepBy(first: nat, last: nat, p: nat, n: nat): nat
    requires first < last
    decreases n
  {
    if n == 0 then p else StepBy(first, last, Wrap(first, last, p + 1), n - 1)
  }

  lemma {:induction false} StepsAdd(first: nat, last: nat, p: nat, n: nat)
    requires first < last
    ensures StepBy(first, last, p, n + 1) == Wrap(first, last, StepBy(first, last, p, n) + 1)
    decreases n
  {
    if n > 0 {
      StepsAdd(first, last, Wrap(first, last, p + 1), n - 1);
    }
  }

  /** The log as an endless ring: the block at place `v`, going round from the first block. */
  function Ring(first: nat, last: nat, v: nat): (p: nat)
    requires first < last
    ensures first <= p < last
    decreases v
  {
    if v == 0 then first else Wrap(first, last, Ring(first, last, v - 1) + 1)
  }

  lemma {:induction false} RingStraight(first: nat, last: nat, v: nat, n: nat)
    requires first < last && Ring(first, last, v) + n < last
    ensures Ring(first, last, v + n) == Ring(first, last, v) + n
    decreases n
  {
    if n > 0 {
      RingStraight(first, last, v, n - 1);
    }
  }

  lemma {:induction false} RingOfItself(first: nat, last: nat, p: nat)
    requires first <= p < last
    ensures Ring(first, last, p - first) == p
  {
    RingStraight(first, last, 0, p - first);
  }

  lemma {:induction false} StepsGoRound(first: nat, last: nat, v: nat, n: nat)
    requires first < last
    ensures StepBy(first, last, Ring(first, last, v), n) == Ring(first, last, v + n)
    decreases n
  {
    if n > 0 {
      StepsGoRound(first, last, v + 1, n - 1);
    }
  }

  /** One wrap for `n` steps is right just as long as the steps do not go round twice. */
  lemma {:induction false} OneWrap(first: nat, last: nat, v: nat, n: nat)
    requires first < last
    ensures Wrap(first, last, Ring(first, last, v) + n) == Ring(first, last, v + n)
            <==> Ring(first, last, v) - first + n < 2 * (last - first)
  {
    var p, length := Ring(first, last, v), last - first;
    if p + n < last {
      RingStraight(first, last, v, n);
    } else if p + n < last + length {
      var m := last - 1 - p;
      RingStraight(first, last, v, m);
      assert Ring(first, last, v + m + 1) == first;
      RingStraight(first, last, v + m + 1, n - m - 1);
      assert v + n == v + m + 1 + (n - m - 1);
    }
  }

  // ---------------------------------------------------------------- one block of the walk

  /** What a reader that expects a given transaction makes of a block: a descriptor with so many
      tags, a commit or revoke block, a block of no or another transaction, or a control block of
      an unknown kind. */
  datatype Seen = Desc(tags: nat) | Commit | Revoke | Foreign | Unknown

  /** A log: blocks [first, last) of the `held` that the journal has, and what is seen at a block by
      a reader that expects a transaction.  Not every reader stops at the end of the journal: blocks up
      to `size` can be read through the map of its blocks. */
  datatype Log = Log(first: nat, last: nat, held: nat, size: nat, look: (nat, nat) -> Seen) {
    predicate Valid() { first < last <= held <= size }

    function Length(): nat requires Valid() { last - first }

    function At(v: nat): (p: nat)
      requires Valid()
      ensures first <= p < last
    {
      Ring(first, last, v)
    }
  }

  /** Where a walk stands: the log block to read next, the transaction expected there, and the
      place just after the last commit block. */
  datatype Walk = Walk(next: nat, id: nat, head: nat)

  datatype Step = Go(w: Walk) | Ended | Unrecognised | Unreadable

  /** The turn both readers share: where to go after a block that was seen as `s`, if `after` is
      where its tags lead. */
  function StepOn(s: Seen, w: Walk, next: nat, after: nat): Step
  {
    match s
    case Desc(_) => Go(Walk(after, w.id, w.head))
    case Commit => Go(Walk(next, NextTid(w.id), next))
    case Revoke => Go(w.(next := next))
    case Foreign => Ended
    case Unknown => Unrecognised
  }

  function TagsOf(s: Seen): nat { if s.Desc? then s.tags else 0 }

  /** One turn of journal_find_head: one wrap after the block, and one after its tags. */
  function FindStep(l: Log, w: Walk): Step
    requires l.Valid()
  {
    if w.next >= l.size then Unreadable
    else
      var s, next := l.look(w.next, w.id), Wrap(l.first, l.last, w.next + 1);
      StepOn(s, w, next, Wrap(l.first, l.last, next + TagsOf(s)))
  }

  /** One turn of logdump, which reads the journal as a file: a wrap after every step. */
  function DumpStep(l: Log, w: Walk): Step
    requires l.Valid()
  {
    if w.next >= l.held then Unreadable
    else
      var s, next := l.look(w.next, w.id), Wrap(l.first, l.last, w.next + 1);
      StepOn(s, w, next, StepBy(l.first, l.last, next, TagsOf(s)))
  }

  /** Whatever is seen, the two readers go on to the same place if and only if the tags of the
      block do not lead round the log twice. */
  lemma {:induction false} ReadersAgree(l: Log, w: Walk)
    requires l.Valid() && l.first <= w.next < l.last
    ensures FindStep(l, w) == DumpStep(l, w) <==>
            Wrap(l.first, l.last, w.next + 1) - l.first + TagsOf(l.look(w.next, w.id)) < 2 * l.Length()
  {
    var n, next := TagsOf(l.look(w.next, w.id)), Wrap(l.first, l.last, w.next + 1);
    RingOfItself(l.first, l.last, next);
    StepsGoRound(l.first, l.last, next - l.first, n);
    OneWrap(l.first, l.last, next - l.first, n);
  }

  // ---------------------------------------------------------------- whole walks

  datatype Outcome = Running(w: Walk) | Found(head: nat, sequence: nat) | Failed(why: Step)

  function Settle(s: Step, w: Walk): Outcome
  {
    match s
    case Go(w') => Running(w')
    case Ended => Found(w.head, w.id)
    case Unrecognised => Failed(s)
    case Unreadable => Failed(s)
  }

  /** Where journal_find_head is after reading at most `k` blocks. */
  function Find(l: Log, w: Walk, k: nat): Outcome
    requires l.Valid()
    decreases k
  {
    if k == 0 then Running(w)
    else
      var o := Settle(FindStep(l, w), w);
      if o.Running? then Find(l, o.w, k - 1) else o
  }

  function Dump(l: Log, w: Walk, k: nat): Outcome
    requires l.Valid()
    decreases k
  {
    if k == 0 then Running(w)
    else
      var o := Settle(DumpStep(l, w), w);
      if o.Running? then Dump(l, o.w, k - 1) else o
  }

  /** No descriptor block of the log holds more tags than the log has blocks. */
  ghost predicate Roomy(l: Log)
    requires l.Valid()
  {
    forall p, id :: l.first <= p < l.last ==> TagsOf(l.look(p, id)) <= l.Length()
  }

  /** In a log that is roomy enough the two readers agree on the whole of it, whatever they see. */
  lemma {:induction false} WalksAgree(l: Log, w: Walk, k: nat)
    requires l.Valid() && Roomy(l) && l.first <= w.next < l.last
    ensures Find(l, w, k) == Dump(l, w, k)
    decreases k
  {
    if k > 0 {
      assert TagsOf(l.look(w.next, w.id)) <= l.Length();
      ReadersAgree(l, w);
      if FindStep(l, w).Go? {
        WalksAgree(l, FindStep(l, w).w, k - 1);
      }
    }
  }

  lemma {:induction false} FindGo(l: Log, w: Walk, w': Walk, k: nat)
    requires l.Valid() && FindStep(l, w) == Go(w')
    ensures Find(l, w, k + 1) == Find(l, w', k)
  {
  }

  /** A walk that is over within `k` reads has a first read, and is over within one less after it. */
  lemma {:induction false} FindOne(l: Log, w: Walk, k: nat)
    requires l.Valid() && !Find(l, w, k).Running?
    ensures k > 0
    ensures Find(l, w, k) == match FindStep(l, w)
                             case Go(w') => Find(l, w', k - 1)
                             case Ended => Found(w.head, w.id)
                             case s => Failed(s)
  {
  }

  // ---------------------------------------------------------------- when the walk ends

  /** Only one transaction is ever seen at a block. */
  ghost predicate Stamped(l: Log, stamp: nat -> nat)
  {
    forall p, id :: l.look(p, id) != Foreign ==> id == stamp(p)
  }

  /** From block `n` on there is nothing that belongs to a journal. */
  ghost predicate ForeignFrom(l: Log, n: nat)
  {
    forall p, id :: n <= p < l.size ==> l.look(p, id) == Foreign
  }

  predicate StillRuns(l: Log, w: Walk, k: nat)
    requires l.Valid()
  {
    Find(l, w, k).Running?
  }

  lemma {:induction false} FindSplit(l: Log, w: Walk, m: nat, n: nat)
    requires l.Valid()
    ensures Find(l, w, m + n) == if StillRuns(l, w, m) then Find(l, Find(l, w, m).w, n) else Find(l, w, m)
    decreases m
  {
    if m > 0 && FindStep(l, w).Go? {
      FindSplit(l, FindStep(l, w).w, m - 1, n);
    }
  }

  /** Once the walk is over, more reads change nothing. */
  lemma {:induction false} FindStays(l: Log, w: Walk, k: nat, k': nat)
    requires l.Valid() && k <= k' && !StillRuns(l, w, k)
    ensures Find(l, w, k') == Find(l, w, k)
  {
    FindSplit(l, w, k, k' - k);
  }

  /** The head is only carried along. */
  lemma {:induction false} HeadIsIdle(l: Log, w: Walk, w': Walk, n: nat)
    requires l.Valid() && w.next == w'.next && w.id == w'.id
    ensures StillRuns(l, w, n) == StillRuns(l, w', n)
    decreases n
  {
    if n > 0 && FindStep(l, w).Go? {
      HeadIsIdle(l, FindStep(l, w).w, FindStep(l, w').w, n - 1);
    }
  }

  /** Where read number `i` takes place. */
  function Place(l: Log, w: Walk, i: nat): nat
    requires l.Valid() && StillRuns(l, w, i)
  {
    Find(l, w, i).w.next
  }

  /** Read number `i` passed the block it read. */
  predicate Passed(l: Log, w: Walk, i: nat)
    requires l.Valid()
  {
    StillRuns(l, w, i) && StillRuns(l, w, i + 1)
  }

  /** Reads `i` and `j` passed the same block. */
  predicate PassedTwice(l: Log, w: Walk, i: nat, j: nat)
    requires l.Valid()
  {
    i < j && Passed(l, w, i) && Passed(l, w, j) && Place(l, w, i) == Place(l, w, j)
  }

  lemma {:induction false} PassedEarlier(l: Log, w: Walk, i: nat, k: nat)
    requires l.Valid() && i < k && StillRuns(l, w, k)
    ensures Passed(l, w, i)
  {
    FindSplit(l, w, i, k - i);
    FindSplit(l, w, i + 1, k - i - 1);
  }

  /** A block that is passed is of the one transaction it can be of. */
  lemma {:induction false} PassedIsStamped(l: Log, stamp: nat -> nat, w: Walk, i: nat, n: nat)
    requires l.Valid() && Stamped(l, stamp) && Passed(l, w, i) && ForeignFrom(l, n)
    ensures Place(l, w, i) < n && Find(l, w, i).w.id == stamp(Place(l, w, i))
  {
    hide Wrap;
    FindSplit(l, w, i, 1);
    var v := Find(l, w, i).w;
    assert FindStep(l, v).Go?;
  }

  lemma {:induction false} NothingPastTheEnd(l: Log)
    ensures ForeignFrom(l, l.size)
  {
  }

  /** A walk that has passed a block twice goes round for ever. */
  lemma {:induction false} RunsForever(l: Log, stamp: nat -> nat, w: Walk, i: nat, j: nat, n: nat)
    requires l.Valid() && Stamped(l, stamp) && PassedTwice(l, w, i, j)
    ensures StillRuns(l, w, n)
    decreases n
  {
    hide Find, Stamped;
    if n <= j {
      if n < j {
        PassedEarlier(l, w, n, j);
      }
    } else {
      var before := n - j + i;
      RunsForever(l, stamp, w, i, j, before);
      FindSplit(l, w, i, n - j);
      FindSplit(l, w, j, n - j);
      NothingPastTheEnd(l);
      PassedIsStamped(l, stamp, w, i, l.size);
      PassedIsStamped(l, stamp, w, j, l.size);
      HeadIsIdle(l, Find(l, w, i).w, Find(l, w, j).w, n - j);
    }
  }

  ghost function Places(l: Log, w: Walk, n: nat): seq<nat>
    requires l.Valid() && StillRuns(l, w, n)
  {
    seq(n, i requires 0 <= i < n => PassedEarlier(l, w, i, n); Place(l, w, i))
  }

  /** A walk that has not ended after one read more than there are blocks of a journal has passed one
      of them twice. */
  lemma {:induction false} TooLongGoesRound(l: Log, stamp: nat -> nat, w: Walk, n: nat) returns (i: nat, j: nat)
    requires l.Valid() && Stamped(l, stamp) && ForeignFrom(l, n) && StillRuns(l, w, n + 1)
    ensures PassedTwice(l, w, i, j)
  {
    hide Find, Stamped, ForeignFrom;
    var ps := Places(l, w, n + 1);
    forall x | 0 <= x <= n ensures Passed(l, w, x) && ps[x] < n {
      PassedEarlier(l, w, x, n + 1);
      PassedIsStamped(l, stamp, w, x, n);
    }
    Bits.Pigeonhole(ps, n);
    i, j :| 0 <= i < j <= n && ps[i] == ps[j];
  }

  /** Exactly when the walk ends, if nothing from block `n` on belongs to a journal: it has ended after
      `n + 1` reads, or it passes some block twice and never ends. */
  lemma {:induction false} EndsInTime(l: Log, stamp: nat -> nat, w: Walk, n: nat)
    requires l.Valid() && Stamped(l, stamp) && ForeignFrom(l, n)
    ensures (exists k: nat :: !StillRuns(l, w, k)) <==> !StillRuns(l, w, n + 1)
    ensures (forall k: nat :: StillRuns(l, w, k)) <==> exists i: nat, j: nat :: PassedTwice(l, w, i, j)
  {
    hide StillRuns, Stamped, PassedTwice, ForeignFrom;
    if StillRuns(l, w, n + 1) {
      var i, j := TooLongGoesRound(l, stamp, w, n);
      forall k: nat ensures StillRuns(l, w, k) {
        RunsForever(l, stamp, w, i, j, k);
      }
    } else if i: nat, j: nat :| PassedTwice(l, w, i, j) {
      RunsForever(l, stamp, w, i, j, n + 1);
    }
  }

  // ---------------------------------------------------------------- journals as they are written

  /** A piece of a transaction: a descriptor block and the `n` blocks it describes, or a revoke
      block. */
  datatype Chunk = Blocks(n: nat) | Revokes

  function Span(c: Chunk): nat
  {
    match c
    case Blocks(n) => 1 + n
    case Revokes => 1
  }

  function SpanOf(cs: seq<Chunk>): nat
  {
    if cs == [] then 0 else Span(cs[0]) + SpanOf(cs[1..])
  }

  predicate ChunkAt(l: Log, v: nat, tid: nat, c: Chunk)
    requires l.Valid()
  {
    match c
    case Blocks(n) => l.look(l.At(v), tid) == Desc(n) && n <= l.Length()
    case Revokes => l.look(l.At(v), tid) == Revoke
  }

  /** The pieces `cs` of transaction `tid` lie one after the other from place `v` of the ring. */
  predicate ChunksAt(l: Log, v: nat, tid: nat, cs: seq<Chunk>)
    requires l.Valid()
    decreases |cs|
  {
    cs == [] || (ChunkAt(l, v, tid, cs[0]) && ChunksAt(l, v + Span(cs[0]), tid, cs[1..]))
  }

  function SpanOfAll(ts: seq<seq<Chunk>>): nat
  {
    if ts == [] then 0 else SpanOf(ts[0]) + 1 + SpanOfAll(ts[1..])
  }

  /** The committed transactions `ts`, numbered from `tid` on, lie back to back from place `v`. */
  predicate TransactionsAt(l: Log, v: nat, tid: nat, ts: seq<seq<Chunk>>)
    requires l.Valid()
    decreases |ts|
  {
    ts == [] ||
    (&& ChunksAt(l, v, tid, ts[0])
     && l.look(l.At(v + SpanOf(ts[0])), tid) == Commit
     && TransactionsAt(l, v + SpanOf(ts[0]) + 1, NextTid(tid), ts[1..]))
  }

  function NextTid(tid: nat): nat { (tid + 1) % U32 }

  function TidAfter(tid: nat, n: nat): nat
    decreases n
  {
    if n == 0 then tid else TidAfter(NextTid(tid), n - 1)
  }

  lemma {:induction false} NextTidIs(tid: nat)
    requires tid < U32
    ensures NextTid(tid) == if tid + 1 == U32 then 0 else tid + 1
    ensures tid % U32 == tid
  {
  }

  lemma {:induction false} TidArithmetic(tid: nat, n: nat)
    requires tid < U32
    ensures TidAfter(tid, n) == (tid + n) % U32
    decreases n
  {
    hide NextTid;
    NextTidIs(tid);
    if n > 0 {
      TidArithmetic(NextTid(tid), n - 1);
      if tid + 1 == U32 {
        Bits.ModPlus(n - 1, U32);
        assert tid + n == n - 1 + U32;
      }
    }
  }

  lemma {:induction false} FindChunk(l: Log, v: nat, tid: nat, head: nat, c: Chunk)
    requires l.Valid() && ChunkAt(l, v, tid, c)
    ensures FindStep(l, Walk(l.At(v), tid, head)) == Go(Walk(l.At(v + Span(c)), tid, head))
  {
    match c
    case Blocks(n) => OneWrap(l.first, l.last, v + 1, n);
    case Revokes =>
  }

  /** The walk passes over the pieces of a transaction without moving the head. */
  lemma {:induction false} FindChunks(l: Log, v: nat, tid: nat, head: nat, cs: seq<Chunk>, k: nat)
    requires l.Valid() && ChunksAt(l, v, tid, cs)
    ensures Find(l, Walk(l.At(v), tid, head), |cs| + k) == Find(l, Walk(l.At(v + SpanOf(cs)), tid, head), k)
    decreases |cs|
  {
    if cs != [] {
      FindChunk(l, v, tid, head, cs[0]);
      FindGo(l, Walk(l.At(v), tid, head), Walk(l.At(v + Span(cs[0])), tid, head), |cs[1..]| + k);
      FindChunks(l, v + Span(cs[0]), tid, head, cs[1..], k);
    }
  }

  lemma {:induction false} FindCommit(l: Log, v: nat, tid: nat, head: nat, k: nat)
    requires l.Valid() && l.look(l.At(v), tid) == Commit
    ensures Find(l, Walk(l.At(v), tid, head), k + 1) == Find(l, Walk(l.At(v + 1), NextTid(tid), l.At(v + 1)), k)
  {
    FindGo(l, Walk(l.At(v), tid, head), Walk(l.At(v + 1), NextTid(tid), l.At(v + 1)), k);
  }

  function Reads(ts: seq<seq<Chunk>>): nat
  {
    if ts == [] then 0 else |ts[0]| + 1 + Reads(ts[1..])
  }

  lemma {:induction false} FindTransaction(l: Log, v: nat, tid: nat, head: nat, cs: seq<Chunk>, k: nat)
    requires l.Valid() && ChunksAt(l, v, tid, cs) && l.look(l.At(v + SpanOf(cs)), tid) == Commit
    ensures var end := l.At(v + SpanOf(cs) + 1);
            Find(l, Walk(l.At(v), tid, head), |cs| + 1 + k) == Find(l, Walk(end, NextTid(tid), end), k)
  {
    hide Find, Ring, ChunksAt, SpanOf;
    FindChunks(l, v, tid, head, cs, 1 + k);
    FindCommit(l, v + SpanOf(cs), tid, head, k);
  }

  lemma {:induction false} FindTransactions(l: Log, v: nat, tid: nat, ts: seq<seq<Chunk>>, k: nat)
    requires l.Valid() && TransactionsAt(l, v, tid, ts)
    ensures Find(l, Walk(l.At(v), tid, l.At(v)), Reads(ts) + k)
            == Find(l, Walk(l.At(v + SpanOfAll(ts)), TidAfter(tid, |ts|), l.At(v + SpanOfAll(ts))), k)
    decreases |ts|
  {
    hide Find, Ring, ChunksAt, NextTid;
    if ts == [] {
    } else {
      var u := v + SpanOf(ts[0]) + 1;
      FindTransaction(l, v, tid, l.At(v), ts[0], Reads(ts[1..]) + k);
      FindTransactions(l, u, NextTid(tid), ts[1..], k);
      assert u + SpanOfAll(ts[1..]) == v + SpanOfAll(ts);
      assert Reads(ts) + k == |ts[0]| + 1 + (Reads(ts[1..]) + k);
    }
  }

  /** For every sequence of committed transactions laid back to back, followed by any part of an
      uncommitted one and then by a block that is no part of the log, the walk ends with the head
      just past the last commit block and the sequence one past its transaction: the uncommitted
      part changes neither. */
  lemma {:induction false} FindsTheHead(l: Log, v: nat, tid: nat, ts: seq<seq<Chunk>>, rest: seq<Chunk>)
    requires l.Valid() && TransactionsAt(l, v, tid, ts)
    requires var end, id := v + SpanOfAll(ts), TidAfter(tid, |ts|);
             ChunksAt(l, end, id, rest) && l.look(l.At(end + SpanOf(rest)), id) == Foreign
    ensures Find(l, Walk(l.At(v), tid, l.At(v)), Reads(ts) + |rest| + 1)
            == Found(l.At(v + SpanOfAll(ts)), TidAfter(tid, |ts|))
  {
    hide Find, Ring, ChunksAt, TransactionsAt, TidAfter, Reads, SpanOfAll, SpanOf;
    var end, id := v + SpanOfAll(ts), TidAfter(tid, |ts|);
    FindTransactions(l, v, tid, ts, |rest| + 1);
    FindChunks(l, end, id, l.At(end), rest, 1);
    FindEnds(l, Walk(l.At(end + SpanOf(rest)), id, l.At(end)));
  }

  lemma {:induction false} FindEnds(l: Log, w: Walk)
    requires l.Valid() && w.next < l.size && l.look(w.next, w.id) == Foreign
    ensures Find(l, w, 1) == Found(w.head, w.id)
  {
  }

  /** Nothing bounds the walk by itself: in a log of revoke blocks of the expected transaction it
      goes round for ever. */
  lemma {:induction false} FindCanRunForever(l: Log, v: nat, tid: nat, head: nat, k: nat)
    requires l.Valid() && (forall p :: l.first <= p < l.last ==> l.look(p, tid) == Revoke)
    ensures Find(l, Walk(l.At(v), tid, head), k) == Running(Walk(l.At(v + k), tid, head))
    decreases k
  {
    if k > 0 {
      FindChunk(l, v, tid, head, Revokes);
      FindGo(l, Walk(l.At(v), tid, head), Walk(l.At(v + 1), tid, head), k - 1);
      FindCanRunForever(l, v + 1, tid, head, k - 1);
    }
  }
}

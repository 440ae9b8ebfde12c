/**
  journal_find_head and logdump on the bytes of a journal.
 */
module JournalReaders {
  import opened JournalFormat
  import opened LogWalk
  import opened Widths

  /** A journal: its format, the log blocks [first, last), and what the blocks hold.  If it is kept in
      an inode, journal_bmap maps every block past its end, up to the most a file can have, to block 0
      of the file system, which holds `zero`; a journal on a device of its own ends at `limit == |log|`. */
  datatype Journal = Journal(c: Config, first: nat, last: nat, log: seq<Block>, limit: nat, zero: Block) {
    predicate Valid()
    {
      && c.Valid() && first < last <= |log| <= limit && |zero| == c.blockSize
      && forall p :: 0 <= p < |log| ==> |log[p]| == c.blockSize
    }

    /** What a read of log block `p` gives. */
    function Read(p: nat): (b: Block)
      requires Valid()
      ensures |b| == c.blockSize
    {
      if p < |log| then log[p] else zero
    }
  }

  /** What a reader that expects transaction `id` makes of a block. */
  function Look(c: Config, b: Block, id: nat): Seen
    requires |b| == c.blockSize && c.Valid()
  {
    if Be32(b, 0) != MAGIC || Be32(b, 8) != id then Foreign
    else if Be32(b, 4) == DESCRIPTOR then Desc(|Tags(c, b, HEADER)|)
    else if Be32(b, 4) == COMMIT then Commit
    else if Be32(b, 4) == REVOKE then Revoke
    else Unknown
  }

  /** The journal as the walks see it. */
  function View(j: Journal): (l: Log)
    requires j.Valid()
    ensures l.Valid()
  {
    Log(j.first, j.last, |j.log|, j.limit, (p: nat, id: nat) => if j.Valid() then Look(j.c, j.Read(p), id) else Foreign)
  }

  lemma {:induction false} LookIs(j: Journal, p: nat, id: nat)
    requires j.Valid() && p < |j.log|
    ensures View(j).look(p, id) == Look(j.c, j.log[p], id)
  {
  }

  lemma {:induction false} FewTags(c: Config, b: Block, o: nat)
    requires |b| == c.blockSize && o <= |b|
    ensures |Tags(c, b, o)| * 8 <= |b| - o
    decreases |b| - o
  {
    if o + c.TagBytes() <= c.Room() {
      TagCount(c, b, o);
      if !LastTag(b, o) && NextTag(c, b, o) <= |b| {
        FewTags(c, b, NextTag(c, b, o));
      }
    }
  }

  lemma {:induction false} LookTags(c: Config, b: Block, id: nat)
    requires |b| == c.blockSize && c.Valid()
    ensures TagsOf(Look(c, b, id)) <= |Tags(c, b, HEADER)|
  {
  }

  /** A log with a block for every eight bytes of a block after its header is roomy, whatever its
      blocks hold: the two readers agree on the whole of it.  So they do on every journal of 1024 blocks
      or more, all in use, whose blocks fit the 8192 bytes that logdump has for one. */
  lemma {:induction false} BigLogsAreRoomy(j: Journal)
    requires j.Valid() && j.c.blockSize <= 8 * (j.last - j.first) + HEADER
    ensures Roomy(View(j))
  {
    hide Look, Tags;
    var l := View(j);
    forall p: nat, id: nat | l.first <= p < l.last ensures TagsOf(l.look(p, id)) <= l.Length() {
      LookIs(j, p, id);
      LookTags(j.c, j.log[p], id);
      FewTags(j.c, j.log[p], HEADER);
    }
  }

  // ---------------------------------------------------------------- when the search for the head ends

  /** The transaction that the sequence word of a block names. */
  function StampOf(j: Journal): nat -> nat
    requires j.Valid()
  {
    (p: nat) => if j.Valid() then Be32(j.Read(p), 8) else 0
  }

  lemma {:induction false} ViewIsStamped(j: Journal)
    requires j.Valid()
    ensures Stamped(View(j), StampOf(j))
  {
  }

  /** From here on no read gives a block with the journal's magic number. */
  function End(j: Journal): nat
    requires j.Valid()
  {
    if Be32(j.zero, 0) == MAGIC then j.limit else |j.log|
  }

  lemma {:induction false} NothingFromEnd(j: Journal)
    requires j.Valid()
    ensures ForeignFrom(View(j), End(j))
  {
  }

  /** For every journal and wherever it starts, the search has ended after one read more than there
      are blocks, or it passes some block twice and never ends.  The blocks past the end of a journal
      count just if the block that is read for them looks like one of the journal's. */
  lemma {:induction false} SearchEnds(j: Journal, w: Walk)
    requires j.Valid()
    ensures (exists k: nat :: !StillRuns(View(j), w, k)) <==> !StillRuns(View(j), w, End(j) + 1)
    ensures (forall k: nat :: StillRuns(View(j), w, k)) <==> exists i: nat, k: nat :: PassedTwice(View(j), w, i, k)
  {
    hide Stamped, ForeignFrom;
    ViewIsStamped(j);
    NothingFromEnd(j);
    EndsInTime(View(j), StampOf(j), w, End(j));
  }

  function RevokeBlock(c: Config, tid: nat): (b: Block)
    requires c.Valid() && tid < U32
    ensures |b| == c.blockSize && IsControl(b, REVOKE, tid)
  {
    WithHeader(seq(c.blockSize, _ => 0 as Byte), REVOKE, tid)
  }

  /** A journal of `n` blocks whose log holds nothing but revoke blocks of one transaction. */
  function AllRevokes(c: Config, n: nat, tid: nat): (j: Journal)
    requires c.Valid() && tid < U32 && n >= 2
    ensures j.Valid() && j.first == 1 && j.last == n == |j.log|
  {
    Journal(c, 1, n, seq(n, _ => RevokeBlock(c, tid)), n, seq(c.blockSize, _ => 0))
  }

  /** On such a journal the search never ends, however long it is. */
  lemma {:induction false} RevokesNeverEnd(c: Config, n: nat, tid: nat, k: nat)
    requires c.Valid() && tid < U32 && n >= 2
    ensures StillRuns(View(AllRevokes(c, n, tid)), Walk(1, tid, 1), k)
  {
    var j := AllRevokes(c, n, tid);
    var l := View(j);
    forall p: nat | l.first <= p < l.last ensures l.look(p, tid) == Revoke {
      LookIs(j, p, tid);
      assert IsControl(j.log[p], REVOKE, tid);
    }
    FindCanRunForever(l, 0, tid, 1, k);
  }

  // ---------------------------------------------------------------- where the two readers part

  /** The format without checksums and with 32-bit block numbers, in blocks of 1024 bytes. */
  function Small(): (c: Config)
    ensures c.Valid() && c.TagBytes() == 8 && c.Room() == c.blockSize == 1024
  {
    Config(1024, false, false, false)
  }

  /** A descriptor block full of tags that have no uuid of their own and are not the last. */
  function FullDescriptor(tid: nat): (b: Block)
    requires tid < U32
    ensures |b| == 1024 && IsControl(b, DESCRIPTOR, tid) && forall k :: HEADER <= k < |b| ==> b[k] == 2
  {
    WithHeader(seq(1024, _ => 2 as Byte), DESCRIPTOR, tid)
  }

  lemma {:induction false} TwoTwos(b: Block, o: nat)
    requires o + 2 <= |b| && b[o] == 2 && b[o + 1] == 2
    ensures Be16(b, o) == 514
  {
    assert Be(b, o, 0) == 0 && Be(b, o, 1) == 2;
  }

  lemma {:induction false} ManyTags(c: Config, b: Block, o: nat)
    requires c.TagBytes() == 8 && c.Room() == c.blockSize == |b|
    requires HEADER <= o <= |b| && forall k :: HEADER <= k < |b| ==> b[k] == 2
    ensures |Tags(c, b, o)| * 8 + 8 > |b| - o
    decreases |b| - o
  {
    hide Tags, Be;
    if o + 8 <= |b| {
      TwoTwos(b, o + 6);
      TagCount(c, b, o);
      ManyTags(c, b, o + 8);
    }
  }

  /** A journal of 1024 such blocks, of which its superblock says that ten are in use. */
  function FullJournal(tid: nat): (j: Journal)
    requires tid < U32
    ensures j.Valid()
  {
    Journal(Small(), 1, 10, seq(1024, _ => FullDescriptor(tid)), 1024, seq(1024, _ => 0))
  }

  /** On this journal the two readers go on from the first block to different ones. */
  lemma {:induction false} ReadersPart(tid: nat)
    requires tid < U32
    ensures var l, w := View(FullJournal(tid)), Walk(1, tid, 1);
            FindStep(l, w) != DumpStep(l, w)
  {
    var j := FullJournal(tid);
    var l, w := View(j), Walk(1, tid, 1);
    ManyTags(j.c, j.log[1], HEADER);
    assert l.look(1, tid) == Desc(|Tags(j.c, j.log[1], HEADER)|);
    ReadersAgree(l, w);
  }

  // ---------------------------------------------------------------- the code

  /** What journal_find_head leaves behind: nothing if the log is empty or it fails. */
  datatype Result = Nothing | Head(block: nat, sequence: nat) | Error(why: Step)

  /** The result that a finished walk stands for. */
  function ResultOf(o: Outcome): Result
  {
    match o
    case Found(head, id) => Head(head, id)
    case Failed(why) => Error(why)
    case Running(_) => Nothing
  }

  /** One turn of the loop of journal_find_head. */
  method FindTurn(j: Journal, w: Walk) returns (s: Step)
    requires j.Valid()
    ensures s == FindStep(View(j), w)
  {
    if w.next >= j.limit {
      return Unreadable;
    }
    var b := j.Read(w.next);
    var next := Wrap(j.first, j.last, w.next + 1);
    if Be32(b, 0) != MAGIC || Be32(b, 8) != w.id {
      return Ended;
    }
    var kind := Be32(b, 4);
    if kind == DESCRIPTOR {
      var n := CountTags(j.c, b);
      return Go(Walk(Wrap(j.first, j.last, next + n), w.id, w.head));
    } else if kind == COMMIT {
      return Go(Walk(next, NextTid(w.id), next));
    } else if kind == REVOKE {
      return Go(w.(next := next));
    } else {
      return Unrecognised;
    }
  }

  /** journal_find_head.  `start` and `sequence` come from the journal superblock.  By SearchEnds the
      search ends just if it has done so after one read more than there are blocks. */
  method FindHead(j: Journal, start: nat, sequence: nat) returns (r: Result)
    requires j.Valid() && (start == 0 || !StillRuns(View(j), Walk(start, sequence, start), End(j) + 1))
    ensures r == if start == 0 then Nothing else ResultOf(Find(View(j), Walk(start, sequence, start), End(j) + 1))
  {
    hide View, Find, FindStep;
    if start == 0 {
      return Nothing;
    }
    var w := Walk(start, sequence, start);
    ghost var left: nat, l, end := End(j) + 1, View(j), Find(View(j), w, End(j) + 1);
    while true
      invariant l == View(j) && Find(l, w, left) == end
      decreases left
    {
      var s := FindTurn(j, w);
      FindOne(l, w, left);
      if !s.Go? {
        return if s == Ended then Head(w.head, w.id) else Error(s);
      }
      w, left := s.w, left - 1;
    }
  }

  /** A block that logdump reports: the file system block and where its copy lies in the log. */
  datatype Logged = Logged(fsBlock: nat, at: nat)

  /** Tags and the log blocks they describe, from block `p` on. */
  function Report(tags: seq<nat>, first: nat, last: nat, p: nat): seq<Logged>
    requires first < last
    decreases |tags|
  {
    if tags == [] then [] else [Logged(tags[0], p)] + Report(tags[1..], first, last, Wrap(first, last, p + 1))
  }

  lemma {:induction false} ReportAt(tags: seq<nat>, first: nat, last: nat, p: nat, i: nat)
    requires first < last && i < |tags|
    ensures |Report(tags, first, last, p)| == |tags|
    ensures Report(tags, first, last, p)[i] == Logged(tags[i], StepBy(first, last, p, i))
    decreases |tags|
  {
    if i > 0 {
      ReportAt(tags[1..], first, last, Wrap(first, last, p + 1), i - 1);
    } else if |tags| > 1 {
      ReportAt(tags[1..], first, last, Wrap(first, last, p + 1), 0);
    }
  }

  lemma {:induction false} TagsStep(c: Config, b: Block, o: nat, first: nat, last: nat, p: nat)
    requires |b| == c.blockSize && o + c.TagBytes() <= c.Room() && first < last
    ensures var rest := if LastTag(b, o) then [] else Tags(c, b, NextTag(c, b, o));
            && Report(Tags(c, b, o), first, last, p)
               == [Logged(Be32(b, o), p)] + Report(rest, first, last, Wrap(first, last, p + 1))
            && StepBy(first, last, p, |Tags(c, b, o)|) == StepBy(first, last, Wrap(first, last, p + 1), |rest|)
  {
    var rest := if LastTag(b, o) then [] else Tags(c, b, NextTag(c, b, o));
    assert Tags(c, b, o) == [Be32(b, o)] + rest;
    assert Tags(c, b, o)[1..] == rest;
  }

  /** dump_descriptor_block: every tag is reported with the log block it describes, and the walk
      goes on one block past the last of them. */
  method DumpDescriptor(j: Journal, block: nat) returns (next: nat, listed: seq<Logged>)
    requires j.Valid() && block < |j.log|
    ensures var first, tags := Wrap(j.first, j.last, block + 1), Tags(j.c, j.log[block], HEADER);
            listed == Report(tags, j.first, j.last, first) && next == StepBy(j.first, j.last, first, |tags|)
  {
    next, listed := DumpTags(j.c, j.log[block], j.first, j.last, Wrap(j.first, j.last, block + 1));
  }

  method DumpTags(c: Config, b: Block, first: nat, last: nat, start: nat) returns (next: nat, listed: seq<Logged>)
    requires |b| == c.blockSize && first < last
    ensures listed == Report(Tags(c, b, HEADER), first, last, start)
    ensures next == StepBy(first, last, start, |Tags(c, b, HEADER)|)
  {
    hide Tags, Be;
    next, listed := start, [];
    ghost var all := Report(Tags(c, b, HEADER), first, last, start);
    ghost var end := StepBy(first, last, start, |Tags(c, b, HEADER)|);
    var offset := HEADER;
    while offset + c.TagBytes() <= c.Room()
      invariant listed + Report(Tags(c, b, offset), first, last, next) == all
      invariant StepBy(first, last, next, |Tags(c, b, offset)|) == end
      decreases |b| - offset
    {
      TagsStep(c, b, offset, first, last, next);
      listed := listed + [Logged(Be32(b, offset), next)];
      next := Wrap(first, last, next + 1);
      if LastTag(b, offset) {
        return;
      }
      offset := NextTag(c, b, offset);
    }
    NoMoreTags(c, b, offset);
  }
}

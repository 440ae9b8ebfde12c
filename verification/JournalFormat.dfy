/**
  The on-disk format of the journal, as debugfs reads and writes it: big-endian words, the
  12-byte header of every control block, and the tags of a descriptor block.
 */
module JournalFormat {
  import opened Widths

  type Block = seq<Byte>

  const MAGIC: nat := 0xc03b3998        // JFS_MAGIC_NUMBER
  const DESCRIPTOR: nat := 1            // JFS_DESCRIPTOR_BLOCK
  const COMMIT: nat := 2                // JFS_COMMIT_BLOCK
  const REVOKE: nat := 5                // JFS_REVOKE_BLOCK
  const HEADER: nat := 12               // sizeof(journal_header_t)
  const REVOKE_HEADER: nat := 16        // sizeof(journal_revoke_header_t)
  const UUID_LEN: nat := 16

  /** The features that shape the blocks. */
  datatype Config = Config(blockSize: nat, csum2: bool, csum3: bool, wide: bool) {
    /** journal_tag_bytes */
    function TagBytes(): (n: nat)
      ensures 8 <= n <= 16
    {
      if csum3 then 16
      else
        var sz := if csum2 then 14 else 12;
        if wide then sz else sz - 4
    }

    /** What a checksum at the end leaves of a block. */
    function Room(): int
    {
      if csum2 || csum3 then blockSize - 4 else blockSize
    }

    predicate Valid() { 1024 <= blockSize <= 65536 }
  }

  // ---------------------------------------------------------------- big-endian words

  /** The `n` bytes from `o` on as a big-endian number. */
  function Be(b: Block, o: nat, n: nat): nat
    requires o + n <= |b|
    decreases n
  {
    if n == 0 then 0 else 256 * Be(b, o, n - 1) + b[o + n - 1] as int
  }

  function Be16(b: Block, o: nat): nat
    requires o + 2 <= |b|
  {
    Be(b, o, 2)
  }

  function Be32(b: Block, o: nat): nat
    requires o + 4 <= |b|
  {
    Be(b, o, 4)
  }

  lemma {:induction false} BeFrame(a: Block, b: Block, o: nat, n: nat)
    requires o + n <= |a| && o + n <= |b| && (forall k :: o <= k < o + n ==> a[k] == b[k])
    ensures Be(a, o, n) == Be(b, o, n)
    decreases n
  {
    if n > 0 {
      BeFrame(a, b, o, n - 1);
    }
  }

  /** Two to the power 8n. */
  function Limit(n: nat): nat
  {
    if n == 0 then 1 else 256 * Limit(n - 1)
  }

  /** Store the low 8n bits of `v`, big end first. */
  function Put(b: Block, o: nat, n: nat, v: nat): (c: Block)
    requires o + n <= |b|
    ensures |c| == |b|
    ensures forall k :: 0 <= k < |b| && !(o <= k < o + n) ==> c[k] == b[k]
    decreases n
  {
    if n == 0 then b else Put(b, o, n - 1, v / 256)[o + n - 1 := v % 256]
  }

  lemma {:induction false} BePut(b: Block, o: nat, n: nat, v: nat)
    requires o + n <= |b| && v < Limit(n)
    ensures Be(Put(b, o, n, v), o, n) == v
    decreases n
  {
    if n > 0 {
      BePut(b, o, n - 1, v / 256);
      BeFrame(Put(b, o, n, v), Put(b, o, n - 1, v / 256), o, n - 1);
    }
  }

  lemma {:induction false} BeBound(b: Block, o: nat, n: nat)
    requires o + n <= |b|
    ensures Be(b, o, n) < Limit(n)
    decreases n
  {
    if n > 0 {
      BeBound(b, o, n - 1);
    }
  }

  lemma {:induction false} Limits()
    ensures Limit(2) == U16 && Limit(4) == U32
  {
    assert Limit(1) == 256 && Limit(2) == 65536 && Limit(3) == 16777216;
  }

  function Put16(b: Block, o: nat, v: nat): (c: Block)
    requires o + 2 <= |b| && v < U16
    ensures |c| == |b| && Be16(c, o) == v
    ensures forall k :: 0 <= k < |b| && !(o <= k < o + 2) ==> c[k] == b[k]
  {
    Limits();
    BePut(b, o, 2, v);
    Put(b, o, 2, v)
  }

  function Put32(b: Block, o: nat, v: nat): (c: Block)
    requires o + 4 <= |b| && v < U32
    ensures |c| == |b| && Be32(c, o) == v
    ensures forall k :: 0 <= k < |b| && !(o <= k < o + 4) ==> c[k] == b[k]
  {
    Limits();
    BePut(b, o, 4, v);
    Put(b, o, 4, v)
  }

  // ---------------------------------------------------------------- headers

  predicate IsControl(b: Block, kind: nat, tid: nat)
  {
    |b| >= HEADER && Be32(b, 0) == MAGIC && Be32(b, 4) == kind && Be32(b, 8) == tid
  }

  function WithHeader(b: Block, kind: nat, tid: nat): (c: Block)
    requires |b| >= HEADER && kind < U32 && tid < U32
    ensures |c| == |b| && IsControl(c, kind, tid)
    ensures forall k :: HEADER <= k < |b| ==> c[k] == b[k]
  {
    var c1 := Put32(b, 0, MAGIC);
    var c2 := Put32(c1, 4, kind);
    var c3 := Put32(c2, 8, tid);
    BeFrame(c3, c1, 0, 4);
    BeFrame(c3, c2, 4, 4);
    c3
  }

  lemma {:induction false} ControlFrame(a: Block, b: Block, kind: nat, tid: nat)
    requires |a| >= HEADER && |b| >= HEADER && a[..HEADER] == b[..HEADER]
    ensures IsControl(a, kind, tid) == IsControl(b, kind, tid)
  {
    assert forall k :: 0 <= k < HEADER ==> a[k] == a[..HEADER][k] && b[k] == b[..HEADER][k];
    BeFrame(a, b, 0, 4);
    BeFrame(a, b, 4, 4);
    BeFrame(a, b, 8, 4);
  }

  // ---------------------------------------------------------------- tags

  predicate SameUuid(b: Block, o: nat) requires o + 8 <= |b| { Be16(b, o + 6) / 2 % 2 == 1 }
  predicate LastTag(b: Block, o: nat) requires o + 8 <= |b| { Be16(b, o + 6) / 8 % 2 == 1 }

  /** Where the tag after the one at `o` begins. */
  function NextTag(c: Config, b: Block, o: nat): nat
    requires o + 8 <= |b|
  {
    o + c.TagBytes() + if SameUuid(b, o) then 0 else UUID_LEN
  }

  /** The file system blocks that the tags from `o` on stand for (their low 32 bits): up to the
      tag marked last, or as far as another tag fits. */
  function Tags(c: Config, b: Block, o: nat): seq<nat>
    requires |b| == c.blockSize
    decreases |b| - o
  {
    if o + c.TagBytes() > c.Room() then []
    else [Be32(b, o)] + if LastTag(b, o) then [] else Tags(c, b, NextTag(c, b, o))
  }

  /** A whole tag, as a replay of the journal reads it: both halves of the block number, and whether the
      block it stands for was escaped. */
  datatype Tag = Tag(low: nat, high: nat, escaped: bool)

  function ReadTag(c: Config, b: Block, o: nat): Tag
    requires o + c.TagBytes() <= |b|
  {
    Tag(Be32(b, o), if c.wide then Be32(b, o + 8) else 0, Be16(b, o + 6) % 2 == 1)
  }

  function TagsIn(c: Config, b: Block, o: nat): seq<Tag>
    requires |b| == c.blockSize
    decreases |b| - o
  {
    if o + c.TagBytes() > c.Room() then []
    else [ReadTag(c, b, o)] + if LastTag(b, o) then [] else TagsIn(c, b, NextTag(c, b, o))
  }

  /** The two readers see the same tags, one of them only the low half. */
  lemma {:induction false} LowHalves(c: Config, b: Block, o: nat)
    requires |b| == c.blockSize
    ensures |Tags(c, b, o)| == |TagsIn(c, b, o)|
    ensures forall k :: 0 <= k < |Tags(c, b, o)| ==> Tags(c, b, o)[k] == TagsIn(c, b, o)[k].low
    decreases |b| - o
  {
    if o + c.TagBytes() <= c.Room() && !LastTag(b, o) {
      LowHalves(c, b, NextTag(c, b, o));
    }
  }

  /** The tags depend on nothing beyond the room that a checksum leaves. */
  lemma {:induction false} TagsFrame(c: Config, a: Block, b: Block, o: nat)
    requires |a| == |b| == c.blockSize && (forall k :: HEADER <= k < c.Room() ==> a[k] == b[k]) && o >= HEADER
    ensures Tags(c, a, o) == Tags(c, b, o)
    decreases |a| - o
  {
    if o + c.TagBytes() <= c.Room() {
      TagFrame(c, a, b, o);
      if !LastTag(b, o) {
        TagsFrame(c, a, b, NextTag(c, b, o));
      }
    }
  }

  lemma {:induction false} TagsInFrame(c: Config, a: Block, b: Block, o: nat)
    requires |a| == |b| == c.blockSize && (forall k :: HEADER <= k < c.Room() ==> a[k] == b[k]) && o >= HEADER
    ensures TagsIn(c, a, o) == TagsIn(c, b, o)
    decreases |a| - o
  {
    if o + c.TagBytes() <= c.Room() {
      TagFrame(c, a, b, o);
      ReadTagFrame(c, a, b, o);
      if !LastTag(b, o) {
        TagsInFrame(c, a, b, NextTag(c, b, o));
      }
    }
  }

  lemma {:induction false} ReadTagFrame(c: Config, a: Block, b: Block, o: nat)
    requires o + c.TagBytes() <= |a| && o + c.TagBytes() <= |b|
    requires forall k :: o <= k < o + c.TagBytes() ==> a[k] == b[k]
    ensures ReadTag(c, a, o) == ReadTag(c, b, o)
  {
    BeFrame(a, b, o, 4);
    BeFrame(a, b, o + 6, 2);
    if c.wide {
      BeFrame(a, b, o + 8, 4);
    }
  }

  lemma {:induction false} NoMoreTagsIn(c: Config, d: Block, o: nat)
    requires |d| == c.blockSize && o + c.TagBytes() > c.Room()
    ensures TagsIn(c, d, o) == []
  {
  }

  lemma {:induction false} TagFrame(c: Config, a: Block, b: Block, o: nat)
    requires o + 8 <= |a| == |b| && (forall k :: o <= k < o + 8 ==> a[k] == b[k])
    ensures Be32(a, o) == Be32(b, o) && LastTag(a, o) == LastTag(b, o) && NextTag(c, a, o) == NextTag(c, b, o)
  {
    BeFrame(a, b, o, 4);
    BeFrame(a, b, o + 6, 2);
  }

  /** A control block with its checksum, if the format has one. */
  function Sealed(c: Config, b: Block, csum: nat): (d: Block)
    requires c.Valid() && |b| == c.blockSize && csum < U32
    ensures |d| == |b| && forall k :: 0 <= k < c.Room() ==> d[k] == b[k]
    ensures if c.Room() < c.blockSize then Be32(d, c.Room()) == csum else d == b
  {
    if c.csum2 || c.csum3 then Put32(b, |b| - 4, csum) else b
  }

  lemma {:induction false} NoMoreTags(c: Config, d: Block, o: nat)
    requires |d| == c.blockSize && o + c.TagBytes() > c.Room()
    ensures Tags(c, d, o) == []
  {
  }

  lemma {:induction false} TagCount(c: Config, b: Block, o: nat)
    requires |b| == c.blockSize && o + c.TagBytes() <= c.Room()
    ensures |Tags(c, b, o)| == if LastTag(b, o) then 1 else 1 + |Tags(c, b, NextTag(c, b, o))|
  {
  }

  /** count_tags, on the whole block. */
  method CountTags(c: Config, b: Block) returns (nr: nat)
    requires |b| == c.blockSize
    ensures nr == |Tags(c, b, HEADER)|
  {
    nr := 0;
    var tagp := HEADER;
    while tagp + c.TagBytes() <= c.Room()
      invariant nr + |Tags(c, b, tagp)| == |Tags(c, b, HEADER)|
      decreases |b| - tagp
    {
      TagCount(c, b, tagp);
      nr := nr + 1;
      if LastTag(b, tagp) {
        return;
      }
      tagp := NextTag(c, b, tagp);
    }
  }
}

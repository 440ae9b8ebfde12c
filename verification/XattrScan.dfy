/**
  The scan of the extended attributes kept inside an inode (check_ea_in_inode).  `st` is the extra
  storage of the inode, beginning with the four bytes of the attribute magic; entries follow, each
  padded to four bytes, and the list ends with a zero word.  Values lie anywhere in the storage.
 */
module XattrScan {
  import opened Widths
  import opened Region

  const WORD: nat := 4
  const ENTRY_LEN: nat := 16   // sizeof(struct ext2_ext_attr_entry)

  function U16At(st: seq<Byte>, o: nat): (n: nat)
    requires o + 2 <= |st|
    ensures n < 65536 && n % 256 == st[o] as int && n / 256 == st[o + 1] as int
  {
    st[o] as int + 256 * st[o + 1] as int
  }

  function U32At(st: seq<Byte>, o: nat): nat
    requires o + 4 <= |st|
  {
    U16At(st, o) + 65536 * U16At(st, o + 2)
  }

  function NameLen(st: seq<Byte>, o: nat): nat requires o + ENTRY_LEN <= |st| { st[o] }
  function ValueOffs(st: seq<Byte>, o: nat): nat requires o + ENTRY_LEN <= |st| { U16At(st, o + 2) }
  function ValueInum(st: seq<Byte>, o: nat): nat requires o + ENTRY_LEN <= |st| { U32At(st, o + 4) }
  function ValueSize(st: seq<Byte>, o: nat): nat requires o + ENTRY_LEN <= |st| { U32At(st, o + 8) }

  /** EXT2_EXT_ATTR_SIZE: rounded up to a multiple of four. */
  function Padded(n: nat): (p: nat)
    ensures p % 4 == 0 && n <= p < n + 4
  {
    (n + 3) / 4 * 4
  }

  // ---------------------------------------------------------------- the layout a list describes

  /** The ranges the value of the entry at `o` takes up in the storage: none if it is empty or
      lives in an inode of its own. */
  function ValueRange(st: seq<Byte>, o: nat): seq<Range>
    requires o + ENTRY_LEN <= |st|
  {
    if ValueInum(st, o) != 0 || ValueSize(st, o) == 0 then []
    else [Range(WORD + ValueOffs(st, o), WORD + ValueOffs(st, o) + Padded(ValueSize(st, o)))]
  }

  /** What the entry at `o` takes away from the room that is left. */
  function Eaten(st: seq<Byte>, o: nat): (n: nat)
    requires o + ENTRY_LEN <= |st|
    ensures ENTRY_LEN + Padded(NameLen(st, o)) <= n
  {
    ENTRY_LEN + Padded(NameLen(st, o)) + if ValueInum(st, o) == 0 then ValueSize(st, o) else 0
  }

  /** Entries end where no further one fits, or at a zero word. */
  predicate AtEnd(st: seq<Byte>, o: nat, remain: nat)
    requires o + remain <= |st|
  {
    remain < ENTRY_LEN || U32At(st, o) == 0
  }

  function EntryRange(st: seq<Byte>, o: nat): Range
    requires o + ENTRY_LEN <= |st|
  {
    Range(o, o + ENTRY_LEN + Padded(NameLen(st, o)))
  }

  /** Everything the list from `o` on occupies: each entry, each value, and the terminator. */
  function Layout(st: seq<Byte>, o: nat, remain: nat): seq<Range>
    requires o + remain <= |st|
    decreases remain, 1
  {
    if AtEnd(st, o, remain) then [Range(o, o + WORD)]
    else [EntryRange(st, o)] + ValueRange(st, o) + LayoutAfter(st, o, remain)
  }

  /** What follows the entry at `o`; an entry that needs more than is left is the last. */
  function LayoutAfter(st: seq<Byte>, o: nat, remain: nat): seq<Range>
    requires o + remain <= |st| && ENTRY_LEN <= remain
    decreases remain, 0
  {
    if Eaten(st, o) > remain then [] else Layout(st, EntryRange(st, o).hi, remain - Eaten(st, o))
  }

  /** The whole storage: the magic word, then the list. */
  function WholeLayout(st: seq<Byte>): seq<Range>
    requires WORD <= |st|
  {
    [Range(0, WORD)] + Layout(st, WORD, |st| - WORD)
  }

  /** Every entry fits in the room that is left when it is reached, and its content is in order:
      `good` holds the offsets of the entries whose hash or attribute inode checks out. */
  predicate Sound(st: seq<Byte>, o: nat, remain: nat, good: set<nat>)
    requires o + remain <= |st|
    decreases remain
  {
    AtEnd(st, o, remain) ||
    (Eaten(st, o) <= remain && o in good && Sound(st, EntryRange(st, o).hi, remain - Eaten(st, o), good))
  }

  ghost predicate Disjoint(a: Range, b: Range)
  {
    a.hi <= b.lo || b.hi <= a.lo
  }

  ghost predicate Inside(rs: seq<Range>, i: nat, size: nat)
  {
    i < |rs| ==> rs[i].lo < rs[i].hi <= size
  }

  ghost predicate Separate(rs: seq<Range>, i: nat, j: nat)
  {
    i < j < |rs| ==> Disjoint(rs[i], rs[j])
  }

  /** All ranges are inside [0, size) and no two of them share an address. */
  ghost predicate WellPlaced(rs: seq<Range>, size: nat)
  {
    (forall i :: Inside(rs, i, size)) && (forall i, j :: Separate(rs, i, j))
  }

  lemma {:induction false} PlacedPrefix(a: seq<Range>, b: seq<Range>, size: nat)
    ensures WellPlaced(a + b, size) ==> WellPlaced(a, size)
  {
    if WellPlaced(a + b, size) {
      forall i: nat ensures Inside(a, i, size) {
        assert Inside(a + b, i, size);
      }
      forall i: nat, j: nat ensures Separate(a, i, j) {
        assert Separate(a + b, i, j);
      }
    }
  }

  /** One more range is well placed just if it is in bounds and hits nothing placed before. */
  lemma {:induction false} OneMorePlaced(rs: seq<Range>, r: Range, size: nat)
    requires WellPlaced(rs, size) && r.lo < r.hi
    ensures WellPlaced(rs + [r], size) <==> r.hi <= size && Free(rs, r.lo, r.hi)
  {
    var ts := rs + [r];
    if WellPlaced(ts, size) {
      assert Inside(ts, |rs|, size) && ts[|rs|] == r;
      forall i | 0 <= i < |rs| ensures Disjoint(rs[i], r) {
        assert Separate(ts, i, |rs|);
      }
    }
    if r.hi <= size && Free(rs, r.lo, r.hi) {
      forall i: nat ensures Inside(ts, i, size) {
        assert Inside(rs, i, size);
      }
      forall i: nat, j: nat ensures Separate(ts, i, j) {
        assert Separate(rs, i, j);
        if i < j == |rs| && !Disjoint(rs[i], r) {
          assert Inside(rs, i, size);
          var x := if rs[i].lo < r.lo then r.lo else rs[i].lo;
          assert rs[i].lo <= x < rs[i].hi;
          assert Covers(rs, x);
        }
      }
    }
  }

  lemma {:induction false} EmptyPlaced(size: nat)
    ensures WellPlaced([], size)
  {
    forall i: nat ensures Inside([], i, size) {}
    forall i: nat, j: nat ensures Separate([], i, j) {}
  }

  lemma {:induction false} PlacedParts(placed: seq<Range>, e: seq<Range>, v: seq<Range>, rest: seq<Range>, size: nat)
    ensures placed + (e + v + rest) == placed + e + v + rest
    ensures WellPlaced(placed + (e + v + rest), size) ==>
              WellPlaced(placed + e, size) && WellPlaced(placed + e + v, size)
  {
    assert placed + (e + v + rest) == placed + e + v + rest;
    PlacedPrefix(placed + e + v, rest, size);
    PlacedPrefix(placed + e, v, size);
  }

  lemma {:induction false} PlacedSuffix(a: seq<Range>, b: seq<Range>, size: nat)
    requires WellPlaced(a + b, size)
    ensures WellPlaced(b, size)
  {
    forall i: nat ensures Inside(b, i, size) {
      assert Inside(a + b, |a| + i, size);
    }
    forall i: nat, j: nat ensures Separate(b, i, j) {
      assert Separate(a + b, |a| + i, |a| + j);
    }
  }

  lemma {:induction false} PlacedApart(a: seq<Range>, b: seq<Range>, size: nat, r: Range, s: Range)
    requires WellPlaced(a + b, size) && r in a && s in b
    ensures Disjoint(r, s)
  {
    var i, j :| 0 <= i < |a| && a[i] == r && 0 <= j < |b| && b[j] == s;
    assert Separate(a + b, i, |a| + j);
  }

  // ---------------------------------------------------------------- entries and the bytes they name

  /** Where the entries of the list from `o` on are; one that needs more than is left is the last. */
  function EntriesFrom(st: seq<Byte>, o: nat, remain: nat): (os: seq<nat>)
    requires o + remain <= |st|
    ensures forall a :: a in os ==> o <= a && a + ENTRY_LEN <= |st|
    decreases remain
  {
    if remain < ENTRY_LEN || U32At(st, o) == 0 then []
    else [o] + if Eaten(st, o) > remain then []
               else EntriesFrom(st, o + ENTRY_LEN + Padded(NameLen(st, o)), remain - Eaten(st, o))
  }

  /** The bytes of the entry at `o`: its fixed part and its name. */
  function EntryBytes(st: seq<Byte>, o: nat): Range
    requires o + ENTRY_LEN <= |st|
  {
    Range(o, o + ENTRY_LEN + NameLen(st, o))
  }

  predicate IsInline(st: seq<Byte>, o: nat)
    requires o + ENTRY_LEN <= |st|
  {
    ValueInum(st, o) == 0 && ValueSize(st, o) > 0
  }

  /** The bytes of the value of the entry at `o`, whose offset counts from the end of the magic. */
  function ValueBytes(st: seq<Byte>, o: nat): Range
    requires o + ENTRY_LEN <= |st|
  {
    Range(WORD + ValueOffs(st, o), WORD + ValueOffs(st, o) + ValueSize(st, o))
  }

  /** The entry at `a` is in the storage, and so is its value, which shares no byte with the entry
      at `b` nor with the value of another one. */
  ghost predicate Apart(st: seq<Byte>, a: nat, b: nat)
    requires a + ENTRY_LEN <= |st| && b + ENTRY_LEN <= |st|
  {
    && EntryBytes(st, a).hi <= |st| && (a != b ==> Disjoint(EntryBytes(st, a), EntryBytes(st, b)))
    && (IsInline(st, a) ==> ValueBytes(st, a).hi <= |st| && Disjoint(ValueBytes(st, a), EntryBytes(st, b)))
    && (IsInline(st, b) ==> Disjoint(EntryBytes(st, a), ValueBytes(st, b)))
    && (IsInline(st, a) && IsInline(st, b) && a != b ==> Disjoint(ValueBytes(st, a), ValueBytes(st, b)))
  }

  /** The ranges of every entry of a list are part of its layout. */
  lemma {:induction false} LaidOut(st: seq<Byte>, o: nat, remain: nat, a: nat)
    requires o + remain <= |st| && a in EntriesFrom(st, o, remain)
    ensures EntryRange(st, a) in Layout(st, o, remain)
    ensures forall r :: r in ValueRange(st, a) ==> r in Layout(st, o, remain)
    decreases remain
  {
    hide Padded, U32At, U16At, Eaten, ValueRange, EntriesFrom;
    EntriesStep(st, o, remain);
    if a != o {
      LaidOut(st, EntryRange(st, o).hi, remain - Eaten(st, o), a);
    }
  }

  /** The bytes of two entries lie in their ranges, so they are apart when the ranges are. */
  lemma {:induction false} RangesApart(st: seq<Byte>, a: nat, b: nat, own: seq<Range>, rest: seq<Range>)
    requires a + ENTRY_LEN <= |st| && b + ENTRY_LEN <= |st| && a != b
    requires own == [EntryRange(st, a)] + ValueRange(st, a) && WellPlaced(own + rest, |st|)
    requires EntryRange(st, b) in rest && forall r :: r in ValueRange(st, b) ==> r in rest
    ensures Apart(st, a, b) && Apart(st, b, a)
  {
    PlacedApart(own, rest, |st|, EntryRange(st, a), EntryRange(st, b));
    RangesInside(own + rest, |st|, EntryRange(st, a));
    RangesInside(own + rest, |st|, EntryRange(st, b));
    if IsInline(st, a) {
      var r := ValueRange(st, a)[0];
      RangesInside(own + rest, |st|, r);
      PlacedApart(own, rest, |st|, r, EntryRange(st, b));
    }
    if IsInline(st, b) {
      var r := ValueRange(st, b)[0];
      RangesInside(own + rest, |st|, r);
      PlacedApart(own, rest, |st|, EntryRange(st, a), r);
    }
    if IsInline(st, a) && IsInline(st, b) {
      PlacedApart(own, rest, |st|, ValueRange(st, a)[0], ValueRange(st, b)[0]);
    }
  }

  lemma {:induction false} RangesInside(rs: seq<Range>, size: nat, r: Range)
    requires WellPlaced(rs, size) && r in rs
    ensures r.lo < r.hi <= size
  {
    var i :| 0 <= i < |rs| && rs[i] == r;
    assert Inside(rs, i, size);
  }

  lemma {:induction false} OwnApart(st: seq<Byte>, a: nat, rest: seq<Range>)
    requires a + ENTRY_LEN <= |st| && WellPlaced([EntryRange(st, a)] + ValueRange(st, a) + rest, |st|)
    ensures Apart(st, a, a)
  {
    var whole := [EntryRange(st, a)] + ValueRange(st, a) + rest;
    RangesInside(whole, |st|, EntryRange(st, a));
    if IsInline(st, a) {
      assert whole == [EntryRange(st, a)] + (ValueRange(st, a) + rest);
      RangesInside(whole, |st|, ValueRange(st, a)[0]);
      PlacedApart([EntryRange(st, a)], ValueRange(st, a) + rest, |st|, EntryRange(st, a), ValueRange(st, a)[0]);
    }
  }

  /** In a storage whose layout is well placed no byte belongs to two things. */
  lemma {:induction false} AllApart(st: seq<Byte>, o: nat, remain: nat)
    requires o + remain <= |st| && WellPlaced(Layout(st, o, remain), |st|)
    ensures forall a, b :: a in EntriesFrom(st, o, remain) && b in EntriesFrom(st, o, remain) ==> Apart(st, a, b)
    decreases remain
  {
    hide Apart, WellPlaced;
    var os := EntriesFrom(st, o, remain);
    if !AtEnd(st, o, remain) {
      var own, rest := [EntryRange(st, o)] + ValueRange(st, o), LayoutAfter(st, o, remain);
      OwnApart(st, o, rest);
      if Eaten(st, o) <= remain {
        var o', left := o + ENTRY_LEN + Padded(NameLen(st, o)), remain - Eaten(st, o);
        PlacedSuffix(own, rest, |st|);
        AllApart(st, o', left);
        forall b | b in EntriesFrom(st, o', left) ensures Apart(st, o, b) && Apart(st, b, o) {
          LaidOut(st, o', left, b);
          RangesApart(st, o, b, own, rest);
        }
      }
    }
  }

  /** The room that an entry takes: sixteen bytes, the padded name, and the value unless it is kept
      in an inode. */
  function Room(st: seq<Byte>, o: nat): nat
    requires o + ENTRY_LEN <= |st|
  {
    16 + (NameLen(st, o) + 3) / 4 * 4 + if ValueInum(st, o) == 0 then ValueSize(st, o) else 0
  }

  function Occupied(st: seq<Byte>, os: seq<nat>): nat
    requires forall a :: a in os ==> a + ENTRY_LEN <= |st|
  {
    if os == [] then 0
    else assert os[0] in os; Room(st, os[0]) + Occupied(st, Rest(os))
  }

  function Rest(os: seq<nat>): (rest: seq<nat>)
    requires os != []
    ensures os == [os[0]] + rest && forall a :: a in os <==> a == os[0] || a in rest
  {
    os[1..]
  }

  /** The list is sound just if every entry is good and all of them together fit in the room. */
  lemma {:induction false} SoundMeans(st: seq<Byte>, o: nat, remain: nat, good: set<nat>)
    requires o + remain <= |st|
    ensures var os := EntriesFrom(st, o, remain);
            Sound(st, o, remain, good) <==> (forall a :: a in os ==> a in good) && Occupied(st, os) <= remain
    decreases remain
  {
    hide Padded, U32At, U16At, Eaten, Room, EntriesFrom;
    EntriesStep(st, o, remain);
    if !AtEnd(st, o, remain) {
      RoomIsEaten(st, o);
      var os := EntriesFrom(st, o, remain);
      assert Occupied(st, os) == Room(st, o) + Occupied(st, Rest(os));
      if Eaten(st, o) <= remain {
        var rest := EntriesFrom(st, EntryRange(st, o).hi, remain - Eaten(st, o));
        SoundMeans(st, EntryRange(st, o).hi, remain - Eaten(st, o), good);
        assert Rest(os) == rest;
      }
    }
  }

  lemma {:induction false} EntriesStep(st: seq<Byte>, o: nat, remain: nat)
    requires o + remain <= |st|
    ensures AtEnd(st, o, remain) ==> EntriesFrom(st, o, remain) == []
    ensures !AtEnd(st, o, remain) ==>
              EntriesFrom(st, o, remain) == [o] +
                if Eaten(st, o) > remain then []
                else EntriesFrom(st, EntryRange(st, o).hi, remain - Eaten(st, o))
  {
  }

  lemma {:induction false} RoomIsEaten(st: seq<Byte>, o: nat)
    requires o + ENTRY_LEN <= |st|
    ensures Room(st, o) == Eaten(st, o)
  {
  }

  // ---------------------------------------------------------------- the code

  datatype Verdict = Fine | Collision | BadNameLen | BadValueSize | BadHash | BadEaInode

  /** The list holds exactly the addresses of the ranges placed so far. */
  ghost predicate Mirrors(region: RegionList, placed: seq<Range>)
    reads region, region.nodes
  {
    && region.Ready()
    && forall x :: Covers(region.ranges, x) <==> Covers(placed, x)
  }

  /** Ask the region for one range: it agrees just when the range is well placed after the others. */
  method Claim(region: RegionList, r: Range, ghost placed: seq<Range>) returns (ok: bool)
    requires Mirrors(region, placed) && region.min == 0 && WellPlaced(placed, region.max) && r.lo < r.hi
    modifies region, region.repr
    ensures fresh(region.repr - old(region.repr))
    ensures ok <==> WellPlaced(placed + [r], region.max)
    ensures ok ==> Mirrors(region, placed + [r])
  {
    OneMorePlaced(placed, r, region.max);
    ghost var rs := region.ranges;
    assert Free(rs, r.lo, r.hi) <==> Free(placed, r.lo, r.hi);
    var outcome := region.Allocate(r.lo, r.hi - r.lo);
    ok := outcome == Done;
    if ok {
      forall x ensures Covers(region.ranges, x) <==> Covers(placed + [r], x) {
        CoversJoin(placed, [r], x);
        OneCovers(r);
        assert Covers(region.ranges, x) <==> Covers(rs, x) || r.lo <= x < r.hi;
      }
    }
  }

  /** One entry of the scan.  `rest` is the layout from this entry on, and `placed` what came
      before it. */
  method ScanEntry(st: seq<Byte>, o: nat, remain: nat, region: RegionList, good: set<nat>, ghost placed: seq<Range>)
    returns (verdict: Verdict, left: nat, ghost placed': seq<Range>)
    requires o + remain <= |st| && !AtEnd(st, o, remain)
    requires Mirrors(region, placed) && region.min == 0 && region.max == |st| && WellPlaced(placed, |st|)
    modifies region, region.repr
    ensures fresh(region.repr - old(region.repr))
    ensures verdict == Fine ==>
              && o in good && Eaten(st, o) <= remain && left == remain - Eaten(st, o)
              && Mirrors(region, placed') && WellPlaced(placed', |st|)
              && placed + Layout(st, o, remain) == placed' + Layout(st, o + ENTRY_LEN + Padded(NameLen(st, o)), left)
    ensures verdict == Collision ==> !WellPlaced(placed + Layout(st, o, remain), |st|)
    ensures verdict != Fine && verdict != Collision ==> o !in good || Eaten(st, o) > remain
  {
    PlacedParts(placed, [EntryRange(st, o)], ValueRange(st, o), LayoutAfter(st, o, remain), |st|);
    var nameLen, valueSize := NameLen(st, o), ValueSize(st, o);
    var len := ENTRY_LEN + Padded(nameLen);
    left := 0;
    var ok := Claim(region, Range(o, o + len), placed);
    placed' := placed + [Range(o, o + len)];
    if !ok {
      return Collision, 0, placed';
    }
    if Padded(nameLen) > remain - ENTRY_LEN {
      return BadNameLen, 0, placed';
    }
    left := remain - len;
    if ValueInum(st, o) == 0 {
      if valueSize > left {
        return BadValueSize, 0, placed';
      }
      if valueSize != 0 {
        var value := Range(WORD + ValueOffs(st, o), WORD + ValueOffs(st, o) + Padded(valueSize));
        ok := Claim(region, value, placed');
        placed' := placed' + [value];
        if !ok {
          return Collision, 0, placed';
        }
      }
      if o !in good {
        return BadHash, 0, placed';
      }
      left := left - valueSize;
    } else {
      if o !in good {
        return BadEaInode, 0, placed';
      }
    }
    assert placed' == placed + [EntryRange(st, o)] + ValueRange(st, o);
    verdict := Fine;
  }

  /** All the entries, up to where the terminator belongs. */
  method ScanEntries(st: seq<Byte>, region: RegionList, good: set<nat>, ghost placed0: seq<Range>)
    returns (verdict: Verdict, o: nat, ghost placed: seq<Range>)
    requires |st| > WORD
    requires Mirrors(region, placed0) && region.min == 0 && region.max == |st| && WellPlaced(placed0, |st|)
    modifies region, region.repr
    ensures fresh(region.repr - old(region.repr))
    ensures verdict == Fine ==>
              && Mirrors(region, placed) && WellPlaced(placed, |st|)
              && placed0 + Layout(st, WORD, |st| - WORD) == placed + [Range(o, o + WORD)]
    ensures verdict == Fine ==> Sound(st, WORD, |st| - WORD, good)
    ensures verdict == Collision ==> !WellPlaced(placed0 + Layout(st, WORD, |st| - WORD), |st|)
    ensures verdict != Fine && verdict != Collision ==> !Sound(st, WORD, |st| - WORD, good)
  {
    var remain: nat;
    o, remain := WORD, |st| - WORD;
    placed := placed0;
    while remain >= ENTRY_LEN && U32At(st, o) != 0
      invariant o + remain <= |st|
      invariant fresh(region.repr - old(region.repr))
      invariant WellPlaced(placed, |st|) && Mirrors(region, placed)
      invariant Sound(st, o, remain, good) == Sound(st, WORD, |st| - WORD, good)
      invariant placed + Layout(st, o, remain) == placed0 + Layout(st, WORD, |st| - WORD)
      decreases remain
    {
      var left;
      verdict, left, placed := ScanEntry(st, o, remain, region, good, placed);
      if verdict != Fine {
        return;
      }
      o, remain := o + ENTRY_LEN + Padded(NameLen(st, o)), left;
    }
    verdict := Fine;
  }

  /** The scan.  It finds nothing wrong if and only if every entry is sound and the magic word,
      all the entries, all the inline values and the terminator occupy pairwise disjoint ranges
      of the storage; and it reports a collision only when they do not. */
  method CheckEaInInode(st: seq<Byte>, good: set<nat>) returns (verdict: Verdict)
    requires |st| > WORD
    ensures verdict == Fine <==> WellPlaced(WholeLayout(st), |st|) && Sound(st, WORD, |st| - WORD, good)
    ensures verdict == Collision ==> !WellPlaced(WholeLayout(st), |st|)
    ensures var os := EntriesFrom(st, WORD, |st| - WORD);
            verdict == Fine ==>
              && (forall a, b :: a in os && b in os ==> Apart(st, a, b))
              && (forall a :: a in os ==> a in good) && Occupied(st, os) <= |st| - WORD
  {
    hide Padded, Apart, Occupied, EntriesFrom, Layout, Sound;
    var region := new RegionList(0, |st|);
    EmptyPlaced(|st|);
    var ok := Claim(region, Range(0, WORD), []);
    ghost var magic := [] + [Range(0, WORD)];
    assert magic == [Range(0, WORD)] && magic + Layout(st, WORD, |st| - WORD) == WholeLayout(st);
    PlacedPrefix(magic, Layout(st, WORD, |st| - WORD), |st|);
    if !ok {
      return Collision;
    }
    var o;
    ghost var placed;
    verdict, o, placed := ScanEntries(st, region, good, magic);
    if verdict == Fine {
      ok := Claim(region, Range(o, o + WORD), placed);
      verdict := if ok then Fine else Collision;
    }
    if verdict == Fine {
      PlacedSuffix(magic, Layout(st, WORD, |st| - WORD), |st|);
      AllApart(st, WORD, |st| - WORD);
      SoundMeans(st, WORD, |st| - WORD, good);
    }
  }
}

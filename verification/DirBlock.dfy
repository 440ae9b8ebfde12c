/**
  Directory blocks as pass 2 of e2fsck checks and repairs them: the entry loop of
  check_dir_block, salvage_directory, check_dot and check_dotdot, for blocks below 64K
  without inline data.  A block is an array of bytes; the last `buf.Length - blockLen`
  bytes are the checksum tail (none when blockLen == buf.Length).
 */
module DirBlock {
  import opened Widths

  const HEADER_LEN: nat := 8
  const MIN_REC_LEN: nat := 12   // EXT2_DIR_REC_LEN(1)
  const NO_ENTRY: int := -1      // the null `prev` pointer

  // ---------------------------------------------------------------- entry fields

  function RecLen(s: seq<Byte>, o: nat): nat
    requires o + HEADER_LEN <= |s|
  {
    s[o + 4] as int + 256 * s[o + 5] as int
  }

  function NameLen(s: seq<Byte>, o: nat): nat
    requires o + HEADER_LEN <= |s|
  {
    s[o + 6]
  }

  function InodeOf(s: seq<Byte>, o: nat): nat
    requires o + HEADER_LEN <= |s|
  {
    s[o] as int + 256 * s[o + 1] as int + 65536 * s[o + 2] as int + 16777216 * s[o + 3] as int
  }

  function Lo(v: nat): Byte { v % 256 }
  function Hi(v: nat): Byte { v / 256 % 256 }

  lemma {:induction false} MultiplesOfFour(a: int, b: int)
    requires a % 4 == 0 && b % 4 == 0
    ensures (a + b) % 4 == 0 && (a - b) % 4 == 0
  {
  }

  /** ext2fs_set_rec_len.  It refuses a length that is larger than the block or not a multiple
      of four; the precondition records that no caller here ever offers it one. */
  function WithRecLen(s: seq<Byte>, o: nat, len: nat): (t: seq<Byte>)
    requires o + HEADER_LEN <= |s| < 65536
    requires len <= |s| && len % 4 == 0
    ensures |t| == |s|
    ensures forall k :: 0 <= k < |s| && k != o + 4 && k != o + 5 ==> t[k] == s[k]
    ensures RecLen(t, o) == len
  {
    s[o + 4 := Lo(len)][o + 5 := Hi(len)]
  }

  // ---------------------------------------------------------------- well-formed blocks

  /** The length of the record at `o` can be followed, in a block that ends at `end`. */
  predicate Link(s: seq<Byte>, o: nat, end: nat)
    requires end <= |s|
  {
    && o + HEADER_LEN <= end
    && MIN_REC_LEN <= RecLen(s, o)
    && RecLen(s, o) % 4 == 0
    && o + RecLen(s, o) <= end
  }

  /** The record at `o` passes the test of the entry loop: its name fits as well. */
  predicate GoodEntry(s: seq<Byte>, o: nat, end: nat)
    requires end <= |s|
  {
    Link(s, o, end) && NameLen(s, o) + HEADER_LEN <= RecLen(s, o)
  }

  /** Following rec_len from `a` visits good entries only and lands exactly on `b`. */
  predicate Chain(s: seq<Byte>, a: nat, b: nat)
    requires b <= |s|
    decreases b - a
  {
    a == b || (a < b && GoodEntry(s, a, b) && Chain(s, a + RecLen(s, a), b))
  }

  lemma {:induction false} ChainFrame(s: seq<Byte>, t: seq<Byte>, a: nat, b: nat)
    requires b <= |s| && b <= |t|
    requires forall k :: a <= k < b ==> s[k] == t[k]
    ensures Chain(s, a, b) == Chain(t, a, b)
    decreases b - a
  {
    if a < b && GoodEntry(s, a, b) {
      ChainFrame(s, t, a + RecLen(s, a), b);
    }
  }

  lemma {:induction false} ChainJoin(s: seq<Byte>, a: nat, b: nat, c: nat)
    requires b <= c <= |s|
    requires Chain(s, a, b) && Chain(s, b, c)
    ensures Chain(s, a, c)
    decreases b - a
  {
    if a < b {
      ChainJoin(s, a + RecLen(s, a), b, c);
    }
  }

  /** Where the records of a chain begin. */
  ghost function Starts(s: seq<Byte>, a: nat, b: nat): set<nat>
    requires b <= |s| && Chain(s, a, b)
    decreases b - a
  {
    if a == b then {} else {a} + Starts(s, a + RecLen(s, a), b)
  }

  lemma {:induction false} StartsFrame(s: seq<Byte>, t: seq<Byte>, a: nat, b: nat)
    requires b <= |s| && b <= |t| && Chain(s, a, b) && Chain(t, a, b)
    requires forall k :: a <= k < b ==> s[k] == t[k]
    ensures Starts(s, a, b) == Starts(t, a, b)
    decreases b - a
  {
    if a < b {
      StartsFrame(s, t, a + RecLen(s, a), b);
    }
  }

  lemma {:induction false} StartsJoin(s: seq<Byte>, a: nat, b: nat, c: nat)
    requires b <= c <= |s| && Chain(s, a, b) && Chain(s, b, c) && Chain(s, a, c)
    ensures Starts(s, a, c) == Starts(s, a, b) + Starts(s, b, c)
    decreases b - a
  {
    if a < b {
      StartsJoin(s, a + RecLen(s, a), b, c);
    }
  }

  /** `prev` is the record before `offset`, if there is one. */
  predicate LinksUp(s: seq<Byte>, prev: int, offset: nat)
    requires offset <= |s|
  {
    && offset % 4 == 0
    && if prev == NO_ENTRY then offset == 0
       else 0 <= prev < offset && Link(s, prev, offset) && prev + RecLen(s, prev) == offset
  }

  /** What the loop knows about the part it has passed: the chain up to `offset` is
      well formed, and `prev` is its last entry. */
  predicate Prefix(s: seq<Byte>, prev: int, offset: nat)
    requires offset <= |s|
  {
    LinksUp(s, prev, offset) && (prev != NO_ENTRY ==> Chain(s, 0, prev) && GoodEntry(s, prev, offset))
  }

  lemma {:induction false} PrefixIsChain(s: seq<Byte>, prev: int, offset: nat)
    requires offset <= |s| && Prefix(s, prev, offset)
    ensures Chain(s, 0, offset)
  {
    if prev != NO_ENTRY {
      ChainJoin(s, 0, prev, offset);
    }
  }

  lemma {:induction false} PrefixFrame(s: seq<Byte>, t: seq<Byte>, prev: int, offset: nat)
    requires offset <= |s| && offset <= |t|
    requires forall k :: 0 <= k < offset ==> s[k] == t[k]
    requires Prefix(s, prev, offset)
    ensures Prefix(t, prev, offset)
  {
    if prev != NO_ENTRY {
      ChainFrame(s, t, 0, prev);
    }
  }

  /** What the loop knows even if the name of the first record was cut: its length can be followed,
      and every record passed after it is good. */
  predicate Passed(s: seq<Byte>, prev: int, offset: nat)
    requires offset <= |s|
  {
    && LinksUp(s, prev, offset)
    && (prev > 0 ==> Link(s, 0, prev) && Chain(s, RecLen(s, 0), prev) && GoodEntry(s, prev, offset))
  }

  /** The records tile the block up to `end`, and all but perhaps the first are good. */
  predicate Tiled(s: seq<Byte>, end: nat)
    requires end <= |s|
  {
    Link(s, 0, end) && Chain(s, RecLen(s, 0), end)
  }

  lemma {:induction false} PassedIsTiled(s: seq<Byte>, prev: int, end: nat)
    requires 0 < end <= |s| && Passed(s, prev, end)
    ensures Tiled(s, end)
  {
    if prev > 0 {
      ChainJoin(s, RecLen(s, 0), prev, end);
    }
  }

  /** Nothing before `prev` changes, and at `prev` only the length may. */
  lemma {:induction false} PassedFrame(s: seq<Byte>, t: seq<Byte>, prev: int, offset: nat, offset': nat)
    requires offset <= |s| && offset' <= |t| && Passed(s, prev, offset) && LinksUp(t, prev, offset')
    requires prev >= 0 ==> forall k :: 0 <= k < prev + HEADER_LEN && k != prev + 4 && k != prev + 5 ==> t[k] == s[k]
    requires prev >= 0 ==> RecLen(t, prev) >= RecLen(s, prev)
    ensures Passed(t, prev, offset')
  {
    if prev > 0 {
      ChainFrame(s, t, RecLen(s, 0), prev);
    }
  }

  /** One more record is passed. */
  lemma {:induction false} PassedOneMore(s: seq<Byte>, t: seq<Byte>, prev: int, o: nat)
    requires o + HEADER_LEN <= |t| <= |s| && Passed(s, prev, o) && (forall k :: 0 <= k < o ==> t[k] == s[k])
    requires o + RecLen(t, o) <= |t| && LinksUp(t, o, o + RecLen(t, o)) && (o > 0 ==> GoodEntry(t, o, o + RecLen(t, o)))
    ensures Passed(t, o, o + RecLen(t, o))
  {
    if o > 0 {
      PassedIsTiled(s, prev, o);
      ChainFrame(s, t, RecLen(s, 0), o);
    }
  }

  // ---------------------------------------------------------------- salvage

  function Zeros(n: nat): (z: seq<Byte>)
    ensures |z| == n && forall k :: 0 <= k < n ==> z[k] == 0
  {
    seq(n, _ => 0)
  }

  /** The size-8 case: everything after the hole moves up, zeros fill the end. */
  function ShiftedUp(s: seq<Byte>, o: nat, blockLen: nat): (t: seq<Byte>)
    requires o + HEADER_LEN <= blockLen <= |s|
    ensures |t| == |s|
    ensures forall k :: 0 <= k < |s| && !(o <= k < blockLen) ==> t[k] == s[k]
  {
    s[..o] + s[o + HEADER_LEN..blockLen] + Zeros(HEADER_LEN) + s[blockLen..]
  }

  lemma {:induction false} ShiftedAt(s: seq<Byte>, o: nat, blockLen: nat, k: nat)
    requires o + HEADER_LEN <= blockLen <= |s| && k < |s|
    ensures ShiftedUp(s, o, blockLen)[k] == if k < o || blockLen <= k then s[k]
                                            else if k < blockLen - HEADER_LEN then s[k + HEADER_LEN] else 0
  {
  }

  /** strnlen(name, name_len) == name_len */
  predicate NameHasNoNul(s: seq<Byte>, o: nat)
    requires o + HEADER_LEN <= |s|
    requires o + HEADER_LEN + NameLen(s, o) <= |s|
  {
    forall k :: o + HEADER_LEN <= k < o + HEADER_LEN + NameLen(s, o) ==> s[k] != 0
  }

  /** The empty entry that takes over the rest of the block when there is no predecessor. */
  function Wiped(s: seq<Byte>, o: nat, blockLen: nat): (t: seq<Byte>)
    requires o + HEADER_LEN <= blockLen <= |s| < 65536 && (blockLen - o) % 4 == 0
    ensures |t| == |s|
    ensures forall k :: 0 <= k < |s| && !(o <= k < blockLen) ==> t[k] == s[k]
  {
    WithRecLen(s, o, blockLen - o)[o := 0][o + 1 := 0][o + 2 := 0][o + 3 := 0][o + 6 := 0][o + 7 := 0]
  }

  datatype Salvaged = Salvaged(block: seq<Byte>, offset: nat)

  /** The five ways salvage_directory can go, in the order it tries them. */
  datatype Way = CoverHole | TrimToBlock | AbsorbIntoPrev(recLen: nat) | SwallowRest | WipeRest

  predicate Geometry(s: seq<Byte>, prev: int, offset: nat, blockLen: nat)
  {
    && offset < blockLen <= |s| < 65536
    && blockLen % 4 == 0
    && MIN_REC_LEN <= blockLen
    && LinksUp(s, prev, offset)
  }

  /** What a way needs in order to keep the block in shape. */
  predicate WayFits(w: Way, s: seq<Byte>, prev: int, offset: nat, blockLen: nat)
    requires Geometry(s, prev, offset, blockLen)
  {
    match w
    case CoverHole => offset + 20 <= blockLen && RecLen(s, offset) == HEADER_LEN
    case TrimToBlock => offset + MIN_REC_LEN <= blockLen && offset + HEADER_LEN + NameLen(s, offset) <= blockLen
    case AbsorbIntoPrev(recLen) => prev != NO_ENTRY && 0 < recLen <= blockLen - offset && recLen % 4 == 0
    case SwallowRest => prev != NO_ENTRY && offset + HEADER_LEN <= blockLen
    case WipeRest => offset == 0
  }

  /** A way touches nothing it has passed except prev's rec_len, and nothing in the tail. */
  function ApplyWay(w: Way, s: seq<Byte>, prev: int, offset: nat, blockLen: nat): (r: Salvaged)
    requires Geometry(s, prev, offset, blockLen) && WayFits(w, s, prev, offset, blockLen)
    ensures |r.block| == |s|
    ensures forall k :: 0 <= k < offset && k != prev + 4 && k != prev + 5 ==> r.block[k] == s[k]
    ensures forall k :: blockLen <= k < |s| ==> r.block[k] == s[k]
  {
    MultiplesOfFour(blockLen, offset);
    match w
    case CoverHole => Salvaged(ShiftedUp(s, offset, blockLen), offset)
    case TrimToBlock => Salvaged(WithRecLen(s, offset, blockLen - offset), offset)
    case AbsorbIntoPrev(recLen) =>
      MultiplesOfFour(RecLen(s, prev), recLen);
      Salvaged(WithRecLen(s, prev, RecLen(s, prev) + recLen), offset + recLen)
    case SwallowRest =>
      MultiplesOfFour(RecLen(s, prev), blockLen - offset);
      Salvaged(WithRecLen(s, prev, RecLen(s, prev) + (blockLen - offset)), |s|)
    case WipeRest => Salvaged(Wiped(s, offset, blockLen), offset)
  }

  function ChooseWay(s: seq<Byte>, prev: int, offset: nat, blockLen: nat, inodesCount: nat): (w: Way)
    requires Geometry(s, prev, offset, blockLen) && !GoodEntry(s, offset, blockLen)
    ensures WayFits(w, s, prev, offset, blockLen)
  {
    var room := blockLen - offset;
    // If not even a header fits, the fields cannot be read: the rest is to be absorbed.
    var recLen := if room < HEADER_LEN then room else RecLen(s, offset);
    var left := room - recLen;
    if left >= 12 && recLen == HEADER_LEN then CoverHole
    else if && left < 0
            && recLen + left > HEADER_LEN
            && NameLen(s, offset) + HEADER_LEN <= recLen + left
            && InodeOf(s, offset) <= inodesCount
            && NameHasNoNul(s, offset) then TrimToBlock
    else if prev != NO_ENTRY && recLen != 0 && recLen % 4 == 0 && offset + recLen <= blockLen
    then AbsorbIntoPrev(recLen)
    else if prev != NO_ENTRY then SwallowRest
    else WipeRest
  }

  /** The whole effect of salvage_directory: the new block and the new offset. */
  function Salvage(s: seq<Byte>, prev: int, offset: nat, blockLen: nat, inodesCount: nat): (r: Salvaged)
    requires Geometry(s, prev, offset, blockLen) && !GoodEntry(s, offset, blockLen)
    ensures |r.block| == |s|
  {
    ApplyWay(ChooseWay(s, prev, offset, blockLen, inodesCount), s, prev, offset, blockLen)
  }

  function Reach(offset: nat, blockLen: nat): nat { if offset < blockLen then offset else blockLen }

  // The measure behind termination: how far from `lo` the last non-zero byte lies.

  function NonZeroSpan(s: seq<Byte>, lo: nat, hi: nat): (n: nat)
    requires lo <= hi <= |s|
    ensures n <= hi - lo
    ensures forall k :: lo + n <= k < hi ==> s[k] == 0
    ensures n != 0 ==> s[lo + n - 1] != 0
  {
    if lo == hi then 0
    else if s[hi - 1] != 0 then hi - lo
    else NonZeroSpan(s, lo, hi - 1)
  }

  /** Zero once the entry at `o` is good; otherwise the size-8 shift is what can repeat. */
  function Rank(s: seq<Byte>, o: nat, blockLen: nat): nat
    requires o <= blockLen <= |s|
  {
    if GoodEntry(s, o, blockLen) then 0 else 1 + NonZeroSpan(s, o, blockLen)
  }

  lemma {:induction false} ShiftLowersRank(s: seq<Byte>, o: nat, blockLen: nat)
    requires o + HEADER_LEN <= blockLen <= |s|
    requires !GoodEntry(s, o, blockLen) && RecLen(s, o) == HEADER_LEN
    ensures Rank(ShiftedUp(s, o, blockLen), o, blockLen) < Rank(s, o, blockLen)
  {
    var t := ShiftedUp(s, o, blockLen);
    var n := NonZeroSpan(s, o, blockLen);
    assert s[o + 4] != 0;
    forall k | o + n - HEADER_LEN <= k < blockLen && o <= k
      ensures t[k] == 0
    {
      if k < blockLen - HEADER_LEN {
        assert t[k] == s[k + HEADER_LEN];
      }
    }
  }

  lemma {:induction false} PrevGrows(s: seq<Byte>, t: seq<Byte>, prev: int, offset: nat, more: nat)
    requires |t| == |s| && offset + more <= |s| && more % 4 == 0
    requires prev != NO_ENTRY && LinksUp(s, prev, offset)
    requires forall k :: 0 <= k < |s| && k != prev + 4 && k != prev + 5 ==> t[k] == s[k]
    requires RecLen(t, prev) == RecLen(s, prev) + more
    ensures LinksUp(t, prev, offset + more)
    ensures Prefix(s, prev, offset) ==> Prefix(t, prev, offset + more)
    ensures Passed(s, prev, offset) ==> Passed(t, prev, offset + more)
  {
    MultiplesOfFour(RecLen(s, prev), more);
    MultiplesOfFour(offset, more);
    ChainFrame(s, t, 0, prev);
    if Passed(s, prev, offset) {
      PassedFrame(s, t, prev, offset, offset + more);
    }
  }

  lemma {:induction false} LinksFrame(s: seq<Byte>, t: seq<Byte>, prev: int, offset: nat)
    requires offset <= |s| && offset <= |t| && LinksUp(s, prev, offset)
    requires forall k :: 0 <= k < offset ==> s[k] == t[k]
    ensures LinksUp(t, prev, offset)
    ensures Prefix(s, prev, offset) ==> Prefix(t, prev, offset)
    ensures Passed(s, prev, offset) ==> Passed(t, prev, offset)
  {
    if Prefix(s, prev, offset) {
      PrefixFrame(s, t, prev, offset);
    }
    if Passed(s, prev, offset) {
      PassedFrame(s, t, prev, offset, offset);
    }
  }

  /** Whichever way a salvage takes, it keeps the loop invariant, and it ends the loop only
      when prev reaches to the end of the usable part. */
  lemma {:induction false} SalvageKeepsPrefix(w: Way, s: seq<Byte>, prev: int, offset: nat, blockLen: nat)
    requires Geometry(s, prev, offset, blockLen) && WayFits(w, s, prev, offset, blockLen)
    ensures var r := ApplyWay(w, s, prev, offset, blockLen);
            && offset <= r.offset
            && (r.offset <= blockLen || (r.offset == |s| && offset + HEADER_LEN <= blockLen))
            && LinksUp(r.block, prev, Reach(r.offset, blockLen))
            && (Prefix(s, prev, offset) ==> Prefix(r.block, prev, Reach(r.offset, blockLen)))
            && (Passed(s, prev, offset) ==> Passed(r.block, prev, Reach(r.offset, blockLen)))
            && (r.offset >= blockLen ==> prev != NO_ENTRY)
  {
    hide Chain, Prefix, Passed, GoodEntry, WithRecLen, ShiftedUp, Wiped, RecLen;
    var r := ApplyWay(w, s, prev, offset, blockLen);
    match w
    case CoverHole => LinksFrame(s, r.block, prev, offset);
    case TrimToBlock => LinksFrame(s, r.block, prev, offset);
    case AbsorbIntoPrev(recLen) => PrevGrows(s, r.block, prev, offset, recLen);
    case SwallowRest => PrevGrows(s, r.block, prev, offset, blockLen - offset);
    case WipeRest => LinksFrame(s, r.block, prev, offset);
  }

  lemma {:induction false} RecLenTrimmed(s: seq<Byte>, o: nat, blockLen: nat)
    requires o + MIN_REC_LEN <= blockLen <= |s| < 65536 && (blockLen - o) % 4 == 0
    requires o + HEADER_LEN + NameLen(s, o) <= blockLen
    ensures GoodEntry(WithRecLen(s, o, blockLen - o), o, blockLen)
  {
  }

  lemma {:induction false} WipedIsGood(s: seq<Byte>, o: nat, blockLen: nat)
    requires o + MIN_REC_LEN <= blockLen <= |s| < 65536 && (blockLen - o) % 4 == 0
    ensures GoodEntry(Wiped(s, o, blockLen), o, blockLen)
  {
    assert RecLen(Wiped(s, o, blockLen), o) == RecLen(WithRecLen(s, o, blockLen - o), o);
  }

  /** Every salvage moves on, or leaves a good entry, or shortens what the shift can eat. */
  lemma {:induction false} SalvageMakesProgress(w: Way, s: seq<Byte>, prev: int, offset: nat, blockLen: nat)
    requires Geometry(s, prev, offset, blockLen) && WayFits(w, s, prev, offset, blockLen)
    requires !GoodEntry(s, offset, blockLen)
    ensures var r := ApplyWay(w, s, prev, offset, blockLen);
            r.offset > offset || Rank(r.block, offset, blockLen) < Rank(s, offset, blockLen)
  {
    MultiplesOfFour(blockLen, offset);
    match w
    case CoverHole => ShiftLowersRank(s, offset, blockLen);
    case TrimToBlock => RecLenTrimmed(s, offset, blockLen);
    case AbsorbIntoPrev(_) =>
    case SwallowRest =>
    case WipeRest => WipedIsGood(s, offset, blockLen);
  }

  /** The block once salvages have made a good entry of the first one. */
  ghost function Cleared(s: seq<Byte>, blockLen: nat, inodesCount: nat): (t: seq<Byte>)
    requires Geometry(s, NO_ENTRY, 0, blockLen)
    ensures |t| == |s| && GoodEntry(t, 0, blockLen)
    decreases Rank(s, 0, blockLen)
  {
    if GoodEntry(s, 0, blockLen) then s
    else
      var w := ChooseWay(s, NO_ENTRY, 0, blockLen, inodesCount);
      SalvageMakesProgress(w, s, NO_ENTRY, 0, blockLen);
      Cleared(ApplyWay(w, s, NO_ENTRY, 0, blockLen).block, blockLen, inodesCount)
  }

  /** The two blocks differ at most in the length of the record at `o`. */
  ghost predicate SameButRecLen(s: seq<Byte>, t: seq<Byte>, o: int)
  {
    |t| == |s| && forall k :: 0 <= k < |s| && k != o + 4 && k != o + 5 ==> t[k] == s[k]
  }

  /** What a salvage of the bad record at `cur` does to the block, and where the loop goes on. */
  ghost predicate SalvagedTo(s: seq<Byte>, prev: int, cur: nat, blockLen: nat, inodesCount: nat, t: seq<Byte>,
                             offset: nat)
    requires Geometry(s, prev, cur, blockLen)
  {
    var recLen := if blockLen - cur < 8 then blockLen - cur else RecLen(s, cur);
    if recLen == 8 && cur + 20 <= blockLen then
      // A hole that is too small for a record: what follows moves up, and the end is cleared.
      && offset == cur && |t| == |s|
      && forall k {:trigger t[k]} :: 0 <= k < |s| ==>
           t[k] == if k < cur || blockLen <= k then s[k] else if k < blockLen - 8 then s[k + 8] else 0
    else if cur + recLen > blockLen > cur + 8 && NameLen(s, cur) + 8 <= blockLen - cur
            && InodeOf(s, cur) <= inodesCount && NameHasNoNul(s, cur) then
      // A record that runs over the end, with a name that does not: it is cut at the end.
      offset == cur && SameButRecLen(s, t, cur) && RecLen(t, cur) == blockLen - cur
    else if prev != NO_ENTRY && recLen > 0 && recLen % 4 == 0 && cur + recLen <= blockLen then
      // A length that can be followed: the record before takes this one over, and no more.
      offset == cur + recLen && SameButRecLen(s, t, prev) && RecLen(t, prev) == RecLen(s, prev) + recLen
    else if prev != NO_ENTRY then
      // The record before takes over the rest of the block.
      offset == |s| && SameButRecLen(s, t, prev) && RecLen(t, prev) == RecLen(s, prev) + (blockLen - cur)
    else
      // There is none before: an empty record takes over the block.
      && offset == cur && |t| == |s| && RecLen(t, cur) == blockLen - cur
      && InodeOf(t, cur) == 0 && NameLen(t, cur) == 0 && t[cur + 7] == 0
      && forall k :: 0 <= k < |s| && !(cur <= k < cur + 8) ==> t[k] == s[k]
  }

  lemma {:induction false} SalvageEffect(s: seq<Byte>, prev: int, cur: nat, blockLen: nat, inodesCount: nat)
    requires Geometry(s, prev, cur, blockLen) && !GoodEntry(s, cur, blockLen)
    ensures var r := Salvage(s, prev, cur, blockLen, inodesCount);
            SalvagedTo(s, prev, cur, blockLen, inodesCount, r.block, r.offset)
  {
    hide ShiftedUp, WithRecLen, Wiped;
    MultiplesOfFour(blockLen, cur);
    match ChooseWay(s, prev, cur, blockLen, inodesCount)
    case CoverHole =>
      forall k: nat | k < |s|
        ensures ShiftedUp(s, cur, blockLen)[k] ==
                if k < cur || blockLen <= k then s[k] else if k < blockLen - 8 then s[k + 8] else 0
      {
        ShiftedAt(s, cur, blockLen, k);
      }
    case WipeRest => WipedAt(s, cur, blockLen);
    case _ =>
  }

  lemma {:induction false} WipedAt(s: seq<Byte>, o: nat, blockLen: nat)
    requires o + HEADER_LEN <= blockLen <= |s| < 65536 && (blockLen - o) % 4 == 0
    ensures var t := Wiped(s, o, blockLen);
            && |t| == |s| && RecLen(t, o) == blockLen - o && InodeOf(t, o) == 0 && NameLen(t, o) == 0 && t[o + 7] == 0
            && forall k :: 0 <= k < |s| && !(o <= k < o + HEADER_LEN) ==> t[k] == s[k]
  {
    var u := WithRecLen(s, o, blockLen - o);
    assert RecLen(Wiped(s, o, blockLen), o) == RecLen(u, o);
  }

  // ---------------------------------------------------------------- which records survive

  /** The lengths from `a` on can all be followed, and none is that of a hole; a remainder too small
      for a header counts as a bad record. */
  predicate Followable(s: seq<Byte>, a: nat, b: nat)
    requires b <= |s|
    decreases b - a
  {
    a == b || a + 4 == b
    || (&& a + HEADER_LEN <= b && 0 < RecLen(s, a) && RecLen(s, a) % 4 == 0 && a + RecLen(s, a) <= b
        && (RecLen(s, a) != 8 || a + 20 > b) && Followable(s, a + RecLen(s, a), b))
  }

  /** Where the good ones among these records begin. */
  ghost function GoodStarts(s: seq<Byte>, a: nat, b: nat): set<nat>
    requires b <= |s| && Followable(s, a, b)
    decreases b - a
  {
    if a == b || a + 4 == b then {}
    else (if GoodEntry(s, a, b) then {a} else {}) + GoodStarts(s, a + RecLen(s, a), b)
  }

  /** While a block whose lengths can be followed is sifted: what is ahead is as it was, and behind lie
      just the records that were good. */
  ghost predicate Sifted(s0: seq<Byte>, s: seq<Byte>, prev: int, offset: nat, blockLen: nat)
    requires blockLen <= |s0|
  {
    && |s| == |s0| && offset <= blockLen && blockLen % 4 == 0 && Followable(s0, 0, blockLen)
    && Followable(s0, offset, blockLen)
    && (forall k :: offset <= k < |s0| ==> s[k] == s0[k])
    && Prefix(s, prev, offset) && Chain(s, 0, offset) && (offset > 0 || GoodEntry(s0, 0, blockLen))
    && Starts(s, 0, offset) + GoodStarts(s0, offset, blockLen) == GoodStarts(s0, 0, blockLen)
  }

  lemma {:induction false} SiftedAtStart(s: seq<Byte>, blockLen: nat)
    requires blockLen <= |s| && blockLen % 4 == 0 && Followable(s, 0, blockLen) && GoodEntry(s, 0, blockLen)
    ensures Sifted(s, s, NO_ENTRY, 0, blockLen)
  {
  }

  lemma {:induction false} SiftedEntry(s0: seq<Byte>, s: seq<Byte>, t: seq<Byte>, prev: int, o: nat, blockLen: nat)
    requires blockLen <= |s0| && o < blockLen && Sifted(s0, s, prev, o, blockLen)
    requires GoodEntry(s, o, blockLen) && ContentsTouched(s, t, o)
    ensures RecLen(t, o) == RecLen(s, o) && Sifted(s0, t, o, o + RecLen(s, o), blockLen)
  {
    hide Starts, Chain;
    var next := o + RecLen(s, o);
    MultiplesOfFour(o, RecLen(s, o));
    SameRecord(s0, s, o, blockLen);
    KeptBefore(s, t, o);
    OneMoreStart(t, o, next);
  }

  lemma {:induction false} SameRecord(s0: seq<Byte>, s: seq<Byte>, o: nat, blockLen: nat)
    requires o + HEADER_LEN <= blockLen <= |s0| == |s| && forall k :: o <= k < |s0| ==> s[k] == s0[k]
    ensures RecLen(s, o) == RecLen(s0, o) && NameLen(s, o) == NameLen(s0, o)
    ensures GoodEntry(s, o, blockLen) <==> GoodEntry(s0, o, blockLen)
  {
  }

  lemma {:induction false} KeptBefore(s: seq<Byte>, t: seq<Byte>, o: nat)
    requires o <= |s| == |t| && Chain(s, 0, o) && forall k :: 0 <= k < o ==> t[k] == s[k]
    ensures Chain(t, 0, o) && Starts(t, 0, o) == Starts(s, 0, o)
  {
    ChainFrame(s, t, 0, o);
    StartsFrame(s, t, 0, o);
  }

  lemma {:induction false} OneMoreStart(t: seq<Byte>, o: nat, next: nat)
    requires o < next <= |t| && Chain(t, 0, o) && GoodEntry(t, o, next) && o + RecLen(t, o) == next
    ensures Chain(t, 0, next) && Starts(t, 0, next) == Starts(t, 0, o) + {o}
  {
    assert Chain(t, next, next) && Starts(t, next, next) == {};
    assert Chain(t, o, next) && Starts(t, o, next) == {o} + Starts(t, next, next);
    ChainJoin(t, 0, o, next);
    StartsJoin(t, 0, o, next);
  }

  /** A bad record is taken over by the one before it, and nothing else is lost. */
  lemma {:induction false} SiftedSalvage(s0: seq<Byte>, s: seq<Byte>, prev: int, cur: nat, blockLen: nat,
                                         inodesCount: nat, t: seq<Byte>, offset: nat)
    requires cur < blockLen <= |s0| && Sifted(s0, s, prev, cur, blockLen) && Geometry(s, prev, cur, blockLen)
    requires !GoodEntry(s, cur, blockLen) && SalvagedTo(s, prev, cur, blockLen, inodesCount, t, offset)
    requires Prefix(s, prev, cur) ==> Prefix(t, prev, Reach(offset, blockLen))
    ensures Sifted(s0, t, prev, offset, blockLen)
  {
    hide Starts, Chain;
    if cur + HEADER_LEN <= blockLen {
      SameRecord(s0, s, cur, blockLen);
    }
    MultiplesOfFour(blockLen, cur);
    BeforePrev(s, prev, cur);
    KeptBefore(s, t, prev);
    OneMoreStart(t, prev, offset);
  }

  lemma {:induction false} BeforePrev(s: seq<Byte>, prev: int, offset: nat)
    requires 0 < offset <= |s| && Prefix(s, prev, offset)
    ensures 0 <= prev < offset && Chain(s, 0, prev) && Chain(s, 0, offset)
            && Starts(s, 0, offset) == Starts(s, 0, prev) + {prev}
  {
    OneMoreStart(s, prev, offset);
  }

  // ---------------------------------------------------------------- one entry rewritten

  /** What checking one good entry may do to the block: stay inside the entry, and leave either
      the same record or two good records that share its space. */
  predicate EntryRewritten(s: seq<Byte>, t: seq<Byte>, o: nat, blockLen: nat)
    requires blockLen <= |s|
  {
    && |t| == |s|
    && GoodEntry(s, o, blockLen)
    && GoodEntry(t, o, blockLen)
    && (forall k :: 0 <= k < |s| && !(o <= k < o + RecLen(s, o)) ==> t[k] == s[k])
    && var next, end := o + RecLen(t, o), o + RecLen(s, o);
       next == end || (next < end && GoodEntry(t, next, end) && next + RecLen(t, next) == end)
  }

  predicate InName(s: seq<Byte>, o: nat, k: nat)
    requires o + HEADER_LEN <= |s|
  {
    o + HEADER_LEN <= k < o + HEADER_LEN + NameLen(s, o)
  }

  /** Changes confined to the inode number, the file type and the name. */
  predicate ContentsTouched(s: seq<Byte>, t: seq<Byte>, o: nat)
    requires o + HEADER_LEN <= |s|
  {
    && |t| == |s|
    && forall k :: 0 <= k < |s| && !(o <= k < o + 4 || k == o + 7 || InName(s, o, k)) ==> t[k] == s[k]
  }

  lemma {:induction false} SameBefore(s: seq<Byte>, t: seq<Byte>, o: nat, blockLen: nat)
    requires blockLen <= |s| && EntryRewritten(s, t, o, blockLen)
    ensures |t| == |s| && (forall k :: 0 <= k < o ==> t[k] == s[k]) && GoodEntry(t, o, o + RecLen(t, o))
  {
  }

  lemma {:induction false} TouchedTail(s: seq<Byte>, t: seq<Byte>, o: nat, blockLen: nat)
    requires o + HEADER_LEN <= |s| && o + HEADER_LEN + NameLen(s, o) <= blockLen <= |s| && ContentsTouched(s, t, o)
    ensures t[blockLen..] == s[blockLen..] && Link(t, o, blockLen) == Link(s, o, blockLen)
  {
  }

  lemma {:induction false} RewrittenSelf(s: seq<Byte>, o: nat, blockLen: nat)
    requires blockLen <= |s| && GoodEntry(s, o, blockLen)
    ensures EntryRewritten(s, s, o, blockLen) && ContentsTouched(s, s, o)
    ensures o + MIN_REC_LEN <= o + RecLen(s, o) <= blockLen
  {
  }

  lemma {:induction false} RewrittenFits(s: seq<Byte>, t: seq<Byte>, o: nat, blockLen: nat)
    requires blockLen <= |s| && EntryRewritten(s, t, o, blockLen)
    ensures |t| == |s| && Link(t, o, blockLen) && t[blockLen..] == s[blockLen..]
    ensures o + MIN_REC_LEN <= blockLen && o + HEADER_LEN + NameLen(t, o) <= blockLen
  {
  }

  lemma {:induction false} RewriteThenTouch(s: seq<Byte>, t: seq<Byte>, u: seq<Byte>, o: nat, blockLen: nat)
    requires blockLen <= |s| && EntryRewritten(s, t, o, blockLen) && ContentsTouched(t, u, o)
    ensures EntryRewritten(s, u, o, blockLen) && RecLen(u, o) == RecLen(t, o)
  {
  }

  lemma {:induction false} StartsUpTo(s: seq<Byte>, t: seq<Byte>, o: nat, next: nat)
    requires o < next <= |s| && |t| == |s|
    requires forall k :: 0 <= k < o ==> t[k] == s[k]
    requires Chain(s, 0, o) && GoodEntry(t, o, next) && o + RecLen(t, o) == next && Chain(t, 0, next)
    ensures Starts(s, 0, o) + {o} <= Starts(t, 0, next)
  {
    ChainFrame(s, t, 0, o);
    StartsFrame(s, t, 0, o);
    StartsJoin(t, 0, o, next);
  }

  /** No record of a well-formed block disappears while an entry is passed. */
  lemma {:induction false} EntryPassedStarts(s: seq<Byte>, t: seq<Byte>, o: nat, blockLen: nat)
    requires o < blockLen <= |s| && EntryRewritten(s, t, o, blockLen)
    requires Chain(s, 0, o) && Chain(s, o, blockLen)
    requires Chain(t, 0, o + RecLen(t, o)) && Chain(t, o + RecLen(t, o), blockLen)
    ensures Starts(s, 0, o) + Starts(s, o, blockLen)
         <= Starts(t, 0, o + RecLen(t, o)) + Starts(t, o + RecLen(t, o), blockLen)
  {
    hide Starts, Chain;
    var next, end := o + RecLen(t, o), o + RecLen(s, o);
    StartsUpTo(s, t, o, next);
    StartsStep(s, o, blockLen);
    if next < end {
      StartsStep(t, next, blockLen);
    }
    StartsFrame(s, t, end, blockLen);
  }

  lemma {:induction false} StartsStep(s: seq<Byte>, a: nat, b: nat)
    requires a < b <= |s| && Chain(s, a, b)
    ensures Chain(s, a + RecLen(s, a), b) && Starts(s, a, b) == {a} + Starts(s, a + RecLen(s, a), b)
  {
  }

  /** Passing a rewritten entry extends the prefix and leaves open exactly the question that was
      open before: is the rest of the block well formed?  If it is, no record is lost. */
  lemma {:induction false} EntryPassed(s: seq<Byte>, t: seq<Byte>, prev: int, o: nat, blockLen: nat)
    requires o < blockLen <= |s| && Prefix(s, prev, o) && EntryRewritten(s, t, o, blockLen)
    ensures Prefix(t, o, o + RecLen(t, o))
    ensures Chain(t, o + RecLen(t, o), blockLen) == Chain(s, o, blockLen)
    ensures Chain(s, 0, o) && Chain(t, 0, o + RecLen(t, o))
    ensures Chain(s, o, blockLen) ==>
              Starts(s, 0, o) + Starts(s, o, blockLen)
              <= Starts(t, 0, o + RecLen(t, o)) + Starts(t, o + RecLen(t, o), blockLen)
  {
    PrefixIsChain(s, prev, o);
    ChainFrame(s, t, 0, o);
    MultiplesOfFour(o, RecLen(t, o));
    ChainFrame(s, t, o + RecLen(s, o), blockLen);
    var next, end := o + RecLen(t, o), o + RecLen(s, o);
    assert next < end ==> GoodEntry(t, next, blockLen);
    PrefixIsChain(t, o, next);
    if Chain(s, o, blockLen) {
      EntryPassedStarts(s, t, o, blockLen);
    }
  }

  /** While nothing has been salvaged: the rest of the block is well formed just if the whole
      was at the start, and then every record it had is still there. */
  ghost predicate Tracks(s0: seq<Byte>, s: seq<Byte>, offset: nat, blockLen: nat)
    requires blockLen <= |s0| && blockLen <= |s|
  {
    && offset <= blockLen
    && Chain(s, 0, offset)
    && Chain(s, offset, blockLen) == Chain(s0, 0, blockLen)
    && (Chain(s0, 0, blockLen) ==> Starts(s0, 0, blockLen) <= Starts(s, 0, offset) + Starts(s, offset, blockLen))
  }

  lemma {:induction false} TracksEntry(s0: seq<Byte>, s: seq<Byte>, t: seq<Byte>, prev: int, o: nat, blockLen: nat)
    requires blockLen <= |s0| && o < blockLen <= |s| && Prefix(s, prev, o) && EntryRewritten(s, t, o, blockLen)
    ensures Prefix(t, o, o + RecLen(t, o))
    ensures Tracks(s0, s, o, blockLen) ==> Tracks(s0, t, o + RecLen(t, o), blockLen)
  {
    EntryPassed(s, t, prev, o, blockLen);
  }

  lemma {:induction false} TracksEnd(s0: seq<Byte>, s: seq<Byte>, blockLen: nat)
    requires blockLen <= |s0| && blockLen <= |s| && Tracks(s0, s, blockLen, blockLen)
    ensures Chain(s0, 0, blockLen) && Chain(s, 0, blockLen) && Starts(s0, 0, blockLen) <= Starts(s, 0, blockLen)
  {
  }

  // ---------------------------------------------------------------- the code

  method SetRecLen(buf: array<Byte>, o: nat, len: nat)
    requires o + HEADER_LEN <= buf.Length < 65536
    requires len <= buf.Length && len % 4 == 0
    modifies buf
    ensures buf[..] == WithRecLen(old(buf[..]), o, len)
  {
    buf[o + 4] := Lo(len);
    buf[o + 5] := Hi(len);
  }

  method NameIsFull(buf: array<Byte>, o: nat) returns (full: bool)
    requires o + HEADER_LEN <= buf.Length
    requires o + HEADER_LEN + NameLen(buf[..], o) <= buf.Length
    ensures full == NameHasNoNul(buf[..], o)
  {
    var nameLen := buf[o + 6];
    var k := 0;
    while k < nameLen && buf[o + HEADER_LEN + k] != 0
      invariant 0 <= k <= nameLen
      invariant forall j :: o + HEADER_LEN <= j < o + HEADER_LEN + k ==> buf[j] != 0
    {
      k := k + 1;
    }
    full := k == nameLen;
    assert !full ==> buf[..][o + HEADER_LEN + k] == 0;
  }

  /** memmove of what follows the hole, then memset of the end. */
  method MoveUp(buf: array<Byte>, o: nat, blockLen: nat)
    requires o + HEADER_LEN <= blockLen <= buf.Length
    modifies buf
    ensures buf[..] == ShiftedUp(old(buf[..]), o, blockLen)
  {
    hide ShiftedUp;
    var end := blockLen - HEADER_LEN;
    ghost var s := buf[..];
    forall i | o <= i < end { buf[i] := buf[i + HEADER_LEN]; }
    forall i | end <= i < blockLen { buf[i] := 0; }
    forall k | 0 <= k < buf.Length ensures buf[k] == ShiftedUp(s, o, blockLen)[k] {
      ShiftedAt(s, o, blockLen, k);
    }
  }

  method WipeFrom(buf: array<Byte>, o: nat, blockLen: nat)
    requires o + HEADER_LEN <= blockLen <= buf.Length < 65536 && (blockLen - o) % 4 == 0
    modifies buf
    ensures buf[..] == Wiped(old(buf[..]), o, blockLen)
  {
    SetRecLen(buf, o, blockLen - o);
    buf[o], buf[o + 1], buf[o + 2], buf[o + 3] := 0, 0, 0, 0;
    buf[o + 6], buf[o + 7] := 0, 0;
  }

  method GrowPrev(buf: array<Byte>, prev: nat, offset: nat, more: nat)
    requires offset + more <= buf.Length < 65536 && more % 4 == 0
    requires LinksUp(buf[..], prev, offset)
    modifies buf
    ensures more % 4 == 0 && RecLen(old(buf[..]), prev) % 4 == 0
    ensures (RecLen(old(buf[..]), prev) + more) % 4 == 0
    ensures buf[..] == WithRecLen(old(buf[..]), prev, RecLen(old(buf[..]), prev) + more)
  {
    MultiplesOfFour(RecLen(buf[..], prev), more);
    SetRecLen(buf, prev, RecLen(buf[..], prev) + more);
  }

  method SalvageDirectory(buf: array<Byte>, prev: int, cur: nat, blockLen: nat, inodesCount: nat)
    returns (offset: nat)
    requires Geometry(buf[..], prev, cur, blockLen) && !GoodEntry(buf[..], cur, blockLen)
    modifies buf
    ensures Salvaged(buf[..], offset) == Salvage(old(buf[..]), prev, cur, blockLen, inodesCount)
    ensures SalvagedTo(old(buf[..]), prev, cur, blockLen, inodesCount, buf[..], offset)
  {
    hide SalvagedTo;
    ghost var s := buf[..];
    SalvageEffect(s, prev, cur, blockLen, inodesCount);
    ghost var way := ChooseWay(s, prev, cur, blockLen, inodesCount);
    var recLen := blockLen - cur;
    var nameLen := 0;
    if blockLen - cur >= HEADER_LEN {
      recLen := RecLen(buf[..], cur);
      nameLen := NameLen(buf[..], cur);
    }
    var left := blockLen - cur - recLen;
    offset := cur;

    if left >= 12 && recLen == HEADER_LEN {
      assert way == CoverHole;
      MoveUp(buf, cur, blockLen);
      return;
    }
    if left < 0 && recLen + left > HEADER_LEN && nameLen + HEADER_LEN <= recLen + left
       && InodeOf(buf[..], cur) <= inodesCount {
      var full := NameIsFull(buf, cur);
      if full {
        assert way == TrimToBlock;
        MultiplesOfFour(blockLen, cur);
        SetRecLen(buf, cur, recLen + left);
        return;
      }
    }
    MultiplesOfFour(blockLen, cur);
    if prev != NO_ENTRY && recLen != 0 && recLen % 4 == 0 && cur + recLen <= blockLen {
      assert way == AbsorbIntoPrev(recLen);
      GrowPrev(buf, prev, cur, recLen);
      offset := cur + recLen;
      return;
    }
    if prev != NO_ENTRY {
      assert way == SwallowRest;
      GrowPrev(buf, prev, cur, blockLen - cur);
      offset := buf.Length;
    } else {
      assert way == WipeRest;
      WipeFrom(buf, cur, blockLen);
    }
  }

  method PutInode(buf: array<Byte>, o: nat, ino: nat)
    requires o + HEADER_LEN <= buf.Length && ino < U32
    modifies buf
    ensures InodeOf(buf[..], o) == ino
    ensures forall k :: 0 <= k < buf.Length && !(o <= k < o + 4) ==> buf[k] == old(buf[k])
  {
    var q1 := ino / 256;
    var q2 := q1 / 256;
    var q3 := q2 / 256;
    buf[o], buf[o + 1], buf[o + 2], buf[o + 3] := ino % 256, q1 % 256, q2 % 256, q3;
  }

  const DOT: Byte := 46
  const ROOT: nat := 2           // EXT2_ROOT_INO

  /** The name `.` repeated `len` times and its terminator, with file type unknown. */
  predicate IsDots(s: seq<Byte>, o: nat, len: nat)
    requires len <= 2 && o + MIN_REC_LEN <= |s|
  {
    && NameLen(s, o) == len
    && (len > 0 ==> s[o + HEADER_LEN] == DOT)
    && (len > 1 ==> s[o + HEADER_LEN + 1] == DOT)
    && s[o + HEADER_LEN + len] == 0
  }

  /** Make the entry at `o` a `.` or `..` entry that refers to `ino`. */
  method WriteDots(buf: array<Byte>, o: nat, ino: nat, len: nat)
    requires 1 <= len <= 2 && o + MIN_REC_LEN <= buf.Length && ino < U32
    modifies buf
    ensures IsDots(buf[..], o, len) && InodeOf(buf[..], o) == ino
    ensures forall k :: 0 <= k < buf.Length && !(o <= k < o + 4 || o + 6 <= k < o + 11) ==> buf[k] == old(buf[k])
  {
    buf[o + 6], buf[o + 7] := len, 0;
    buf[o + 8] := DOT;
    if len == 2 { buf[o + 9] := DOT; }
    buf[o + HEADER_LEN + len] := 0;
    PutInode(buf, o, ino);
  }

  /** An empty record of length `len`. */
  predicate IsEmpty(s: seq<Byte>, o: nat, len: nat)
    requires o + HEADER_LEN <= |s|
  {
    InodeOf(s, o) == 0 && RecLen(s, o) == len && NameLen(s, o) == 0 && s[o + 7] == 0
  }

  /** The second half of check_dot: cut the record after 12 bytes and turn the rest into an
      empty record. */
  method SplitRecord(buf: array<Byte>, o: nat, newLen: nat)
    requires o + 12 + newLen <= buf.Length < 65536 && 12 < newLen && newLen % 4 == 0
    modifies buf
    ensures RecLen(buf[..], o) == 12 && IsEmpty(buf[..], o + 12, newLen)
    ensures forall k :: 0 <= k < buf.Length && k != o + 4 && k != o + 5 && !(o + 12 <= k < o + 20)
              ==> buf[k] == old(buf[k])
  {
    var next := o + 12;
    SetRecLen(buf, o, 12);
    SetRecLen(buf, next, newLen);
    buf[next], buf[next + 1], buf[next + 2], buf[next + 3] := 0, 0, 0, 0;
    buf[next + 6], buf[next + 7] := 0, 0;
  }

  /** The first entry is not a proper `.` entry, and the second not a proper `..` entry. */
  predicate NotDots(s: seq<Byte>, o: nat, len: nat)
    requires 1 <= len <= 2 && o + MIN_REC_LEN <= |s|
  {
    InodeOf(s, o) == 0 || !IsDots(s, o, len)
  }

  /** The answers to the three questions of check_dot and to the one of check_dotdot, and whether the
      directory is known to the table of directories. */
  datatype DotAnswers = DotAnswers(name: bool, inode: bool, split: bool, parent: bool, known: bool)

  /** Refusing the rename of a long first entry and then accepting the split cuts the record
      shorter than its own name. */
  predicate CutsName(s: seq<Byte>, o: nat, fix: DotAnswers)
    requires o + HEADER_LEN <= |s|
  {
    !fix.name && fix.split && RecLen(s, o) > 24 && NameLen(s, o) > 4
  }

  /** check_dot, on the first entry of a block.  The entry stays good unless, and only unless,
      the answers cut its name. */
  method CheckDot(buf: array<Byte>, o: nat, blockLen: nat, ino: nat, fix: DotAnswers) returns (modified: bool)
    requires blockLen <= buf.Length < 65536 && GoodEntry(buf[..], o, blockLen) && 0 < ino < U32
    modifies buf
    ensures GoodEntry(buf[..], o, blockLen) <==> !CutsName(old(buf[..]), o, fix)
    ensures !CutsName(old(buf[..]), o, fix) ==> EntryRewritten(old(buf[..]), buf[..], o, blockLen)
    ensures Link(buf[..], o, blockLen) && HEADER_LEN + NameLen(buf[..], o) <= RecLen(old(buf[..]), o)
    ensures buf[blockLen..] == old(buf[blockLen..])
    ensures fix.name ==> IsDots(buf[..], o, 1)
    ensures !modified ==> buf[..] == old(buf[..])
    ensures modified <==> (fix.name && NotDots(old(buf[..]), o, 1)) || (fix.inode && InodeOf(old(buf[..]), o) != ino)
                          || (fix.split && RecLen(old(buf[..]), o) > 24)
    ensures var created := fix.name && NotDots(old(buf[..]), o, 1);
            && InodeOf(buf[..], o) == (if created || fix.inode then ino else InodeOf(old(buf[..]), o))
            && (!created ==> buf[o + 6..o + 12] == old(buf[o + 6..o + 12]))
            && (if RecLen(old(buf[..]), o) > 24 && (created || fix.split)
                then RecLen(buf[..], o) == 12 && IsEmpty(buf[..], o + 12, RecLen(old(buf[..]), o) - 12)
                else RecLen(buf[..], o) == RecLen(old(buf[..]), o))
  {
    hide EntryRewritten;
    ghost var s := buf[..];
    var recLen := RecLen(buf[..], o);
    var created;
    modified, created := NameDot(buf, o, ino, fix);
    if recLen - 12 > 12 && (created || fix.split) {
      MultiplesOfFour(recLen, 12);
      SplitRecord(buf, o, recLen - 12);
      modified := true;
    }
    if !created {
      assert buf[o + 6] == buf[o + 6..o + 12][0] == s[o + 6..o + 12][0];
      assert NameLen(buf[..], o) == NameLen(s, o);
    }
    StillGood(s, buf[..], o, blockLen);
  }

  /** A block that is one good record: inode 12, the name "aaaaa", and the rest of 1024 bytes unused. */
  function OneRecord(): (s: seq<Byte>)
    ensures |s| == 1024 && GoodEntry(s, 0, 1024)
  {
    seq(1024, k => var b: Byte := if k == 0 then 12 else if k == 5 then 4 else if k == 6 then 5 else if k == 7 then 2
                                  else if 8 <= k < 13 then 97 else 0; b)
  }

  /** Declining the rename of its name and accepting the split leaves a record that is not good. */
  method CutOneRecord(block: array<Byte>)
    requires block[..] == OneRecord()
    modifies block
    ensures GoodEntry(old(block[..]), 0, 1024) && !GoodEntry(block[..], 0, 1024)
  {
    var _ := CheckDot(block, 0, 1024, 11, DotAnswers(false, false, true, false, true));
  }

  /** The first half of check_dot: the name and the inode. */
  method NameDot(buf: array<Byte>, o: nat, ino: nat, fix: DotAnswers) returns (modified: bool, created: bool)
    requires o + MIN_REC_LEN <= buf.Length && 0 < ino < U32
    modifies buf
    ensures created == (fix.name && NotDots(old(buf[..]), o, 1)) && (fix.name ==> IsDots(buf[..], o, 1))
    ensures InodeOf(buf[..], o) == (if created || fix.inode then ino else InodeOf(old(buf[..]), o))
    ensures !created ==> buf[o + 6..o + 12] == old(buf[o + 6..o + 12])
    ensures !modified ==> !created && buf[..] == old(buf[..])
    ensures modified <==> created || (fix.inode && InodeOf(old(buf[..]), o) != ino)
    ensures forall k :: 0 <= k < buf.Length && !(o <= k < o + 4 || o + 6 <= k < o + 11) ==> buf[k] == old(buf[k])
  {
    modified, created := false, false;
    if InodeOf(buf[..], o) == 0 || buf[o + 6] != 1 || buf[o + 8] != DOT || buf[o + 9] != 0 {
      if fix.name {
        WriteDots(buf, o, ino, 1);
        modified, created := true, true;
      }
    }
    if InodeOf(buf[..], o) != ino && fix.inode {
      PutInode(buf, o, ino);
      modified := true;
    }
  }

  /** A record whose name and inode were changed, and which may have been split, is good exactly if
      its name still fits. */
  lemma {:induction false} StillGood(s: seq<Byte>, t: seq<Byte>, o: nat, blockLen: nat)
    requires blockLen <= |s| == |t| && GoodEntry(s, o, blockLen)
    requires forall k :: 0 <= k < |s| && !(o <= k < o + RecLen(s, o)) ==> t[k] == s[k]
    requires RecLen(t, o) == RecLen(s, o)
             || (RecLen(t, o) == 12 && RecLen(s, o) > 24 && IsEmpty(t, o + 12, RecLen(s, o) - 12))
    ensures Link(t, o, blockLen)
    ensures NameLen(t, o) + HEADER_LEN <= RecLen(t, o) ==> EntryRewritten(s, t, o, blockLen)
  {
  }

  /** check_dotdot, on the second entry.  Its inode number is left for pass 3; `known` says
      whether the directory has a dir_info record, without which the check gives up. */
  method CheckDotDot(buf: array<Byte>, o: nat, blockLen: nat, known: bool, fixName: bool)
    returns (modified: bool, failed: bool)
    requires blockLen <= buf.Length < 65536 && GoodEntry(buf[..], o, blockLen)
    modifies buf
    ensures EntryRewritten(old(buf[..]), buf[..], o, blockLen) && RecLen(buf[..], o) == RecLen(old(buf[..]), o)
    ensures fixName ==> IsDots(buf[..], o, 2)
    ensures failed <==> !known && !NotDots(old(buf[..]), o, 2)
    ensures modified <==> fixName && NotDots(old(buf[..]), o, 2)
    ensures if modified then InodeOf(buf[..], o) == ROOT else buf[..] == old(buf[..])
  {
    modified, failed := false, false;
    if InodeOf(buf[..], o) == 0 || buf[o + 6] != 2 || buf[o + 8] != DOT || buf[o + 9] != DOT || buf[o + 10] != 0 {
      if fixName {
        WriteDots(buf, o, ROOT, 2);
        modified := true;
      }
    } else {
      failed := !known;
    }
  }

  const SLASH: Byte := 47

  /** Byte `k` once the first `n` bytes of the name at `o` are free of slashes and NULs. */
  function CleanByte(s: seq<Byte>, o: nat, n: nat, k: nat): Byte
    requires k < |s|
  {
    if o + HEADER_LEN <= k < o + HEADER_LEN + n && (s[k] == SLASH || s[k] == 0) then DOT else s[k]
  }

  /** check_name: every slash and NUL inside the name becomes a dot. */
  method CheckName(buf: array<Byte>, o: nat) returns (modified: bool)
    requires o + HEADER_LEN <= buf.Length && o + HEADER_LEN + NameLen(buf[..], o) <= buf.Length
    modifies buf
    ensures forall k :: 0 <= k < buf.Length ==> buf[k] == CleanByte(old(buf[..]), o, NameLen(old(buf[..]), o), k)
    ensures modified <==> exists k :: 0 <= k < buf.Length && buf[k] != old(buf[k])
  {
    modified := false;
    var i := 0;
    var n := buf[o + 6];
    while i < n
      invariant 0 <= i <= n
      invariant forall k :: 0 <= k < buf.Length ==> buf[k] == CleanByte(old(buf[..]), o, i, k)
      invariant modified <==> exists k :: 0 <= k < buf.Length && buf[k] != old(buf[k])
    {
      if buf[o + HEADER_LEN + i] == SLASH || buf[o + HEADER_LEN + i] == 0 {
        buf[o + HEADER_LEN + i] := DOT;
        modified := true;
      }
      i := i + 1;
    }
  }

  /** What is decided about the entry at some offset: to clear it before its name is looked at, to
      repair the name, to set the file type, to give up, or to clear it as a second link to a directory. */
  datatype Judgement = Judgement(clear: bool, rename: bool, retype: bool, fileType: Byte, abort: bool, unlink: bool)

  /** An entry after its contents were checked: nothing happens to an unused one. */
  ghost predicate ContentsJudged(s: seq<Byte>, t: seq<Byte>, o: nat, j: Judgement)
    requires o + HEADER_LEN <= |s| && |t| == |s|
  {
    if InodeOf(s, o) == 0 then t == s
    else
      && InodeOf(t, o) == (if j.clear || j.unlink then 0 else InodeOf(s, o))
      && t[o + 7] == (if !j.clear && j.retype then j.fileType else s[o + 7])
      && forall k {:trigger t[k]} :: 0 <= k < |s| && !(o <= k < o + 4) && k != o + 7 ==>
           t[k] == if !j.clear && j.rename then CleanByte(s, o, NameLen(s, o), k) else s[k]
  }

  /** The checks on what an entry refers to: they clear the inode number, repair the name or set the
      file type as was decided, and touch nothing else. */
  method CheckContents(buf: array<Byte>, o: nat, j: Judgement) returns (modified: bool, failed: bool)
    requires o + MIN_REC_LEN <= buf.Length && o + HEADER_LEN + NameLen(buf[..], o) <= buf.Length
    modifies buf
    ensures ContentsTouched(old(buf[..]), buf[..], o)
    ensures failed == (InodeOf(old(buf[..]), o) != 0 && !j.clear && j.abort)
    ensures !failed ==> ContentsJudged(old(buf[..]), buf[..], o, j)
    ensures !modified ==> buf[..] == old(buf[..])
  {
    ghost var s := buf[..];
    modified, failed := false, false;
    if InodeOf(buf[..], o) == 0 {
      return;
    }
    if j.clear {
      PutInode(buf, o, 0);
      return true, false;
    }
    if j.rename {
      modified := CheckName(buf, o);
      if !modified {
        assert buf[..] == s;
      }
    }
    if j.retype {
      buf[o + 7] := j.fileType;
      modified := true;
    }
    if j.abort {
      failed := true;
      return;
    }
    if j.unlink {
      PutInode(buf, o, 0);
      modified := true;
    }
  }

  /** `.` and `..` keep their names when their contents are checked. */
  lemma {:induction false} JudgedDots(s: seq<Byte>, t: seq<Byte>, o: nat, j: Judgement, len: nat)
    requires o + MIN_REC_LEN <= |s| == |t| && ContentsJudged(s, t, o, j) && len <= 2
    ensures IsDots(s, o, len) ==> IsDots(t, o, len)
    ensures InodeOf(t, o) == InodeOf(s, o) || InodeOf(t, o) == 0
  {
  }

  /** One salvage, as the loop sees it. */
  method SalvageStep(buf: array<Byte>, prev: int, cur: nat, blockLen: nat, inodesCount: nat) returns (offset: nat)
    requires Geometry(buf[..], prev, cur, blockLen) && !GoodEntry(buf[..], cur, blockLen)
    modifies buf
    ensures offset <= blockLen || (offset == buf.Length && prev + MIN_REC_LEN <= cur && cur + HEADER_LEN <= blockLen)
    ensures LinksUp(buf[..], prev, Reach(offset, blockLen))
    ensures Prefix(old(buf[..]), prev, cur) ==> Prefix(buf[..], prev, Reach(offset, blockLen))
    ensures Passed(old(buf[..]), prev, cur) ==> Passed(buf[..], prev, Reach(offset, blockLen))
    ensures offset > cur || (offset == cur && Rank(buf[..], cur, blockLen) < Rank(old(buf[..]), cur, blockLen))
    ensures buf[blockLen..] == old(buf[blockLen..])
    ensures SalvagedTo(old(buf[..]), prev, cur, blockLen, inodesCount, buf[..], offset)
    ensures prev == NO_ENTRY ==>
              offset == 0 && Cleared(buf[..], blockLen, inodesCount) == Cleared(old(buf[..]), blockLen, inodesCount)
  {
    hide SalvagedTo;
    ghost var s := buf[..];
    ghost var way := ChooseWay(s, prev, cur, blockLen, inodesCount);
    SalvageKeepsPrefix(way, s, prev, cur, blockLen);
    SalvageMakesProgress(way, s, prev, cur, blockLen);
    offset := SalvageDirectory(buf, prev, cur, blockLen, inodesCount);
    assert buf[..] == ApplyWay(way, s, prev, cur, blockLen).block;
  }

  /** The answers cut the name of the first entry of a directory. */
  predicate Cuts(s: seq<Byte>, o: nat, dotState: nat, dot: DotAnswers)
    requires o + HEADER_LEN <= |s|
  {
    dotState == 0 && CutsName(s, o, dot)
  }

  /** An entry that was to be cleared is unused, and one whose name was to be repaired is unused or has
      a name without slashes and NULs. */
  ghost predicate AsJudged(s: seq<Byte>, o: nat, j: Judgement)
    requires o + HEADER_LEN <= |s|
  {
    && (j.clear || j.unlink ==> InodeOf(s, o) == 0)
    && (j.rename && InodeOf(s, o) != 0 ==>
          forall k :: o + HEADER_LEN <= k < o + HEADER_LEN + NameLen(s, o) && k < |s| ==> s[k] != SLASH && s[k] != 0)
  }

  lemma {:induction false} JudgedIsAsJudged(s: seq<Byte>, t: seq<Byte>, o: nat, j: Judgement)
    requires o + HEADER_LEN <= |s| == |t| && ContentsJudged(s, t, o, j)
    ensures AsJudged(t, o, j)
  {
  }

  lemma {:induction false} AsJudgedFrame(s: seq<Byte>, t: seq<Byte>, o: nat, end: nat, j: Judgement)
    requires o + HEADER_LEN <= |s| == |t| && AsJudged(s, o, j) && o + HEADER_LEN + NameLen(s, o) <= end
    requires forall k :: o <= k < end && k < |s| && k != o + 4 && k != o + 5 ==> t[k] == s[k]
    ensures AsJudged(t, o, j)
  {
  }

  /** All records passed are as was decided; and if the last of them has taken over the rest of the block,
      its name ends before `cur`. */
  ghost predicate AllJudged(s: seq<Byte>, prev: int, cur: nat, offset: nat, blockLen: nat, judge: nat -> Judgement)
    requires blockLen <= |s|
  {
    && Prefix(s, prev, Reach(offset, blockLen)) && Chain(s, 0, Reach(offset, blockLen))
    && (forall o :: o in Starts(s, 0, Reach(offset, blockLen)) ==> o + HEADER_LEN <= |s| && AsJudged(s, o, judge(o)))
    && (offset > blockLen ==> 0 <= prev && prev + HEADER_LEN + NameLen(s, prev) <= cur)
  }

  lemma {:induction false} NoneJudged(s: seq<Byte>, blockLen: nat, judge: nat -> Judgement)
    requires blockLen <= |s|
    ensures AllJudged(s, NO_ENTRY, 0, 0, blockLen, judge)
  {
  }

  lemma {:induction false} StartsGood(s: seq<Byte>, a: nat, b: nat, o: nat)
    requires b <= |s| && Chain(s, a, b) && o in Starts(s, a, b)
    ensures a <= o && GoodEntry(s, o, b)
    decreases b - a
  {
    if o != a {
      StartsGood(s, a + RecLen(s, a), b, o);
    }
  }

  /** Records before `o` are as they were. */
  lemma {:induction false} JudgedBefore(s: seq<Byte>, t: seq<Byte>, o: nat, judge: nat -> Judgement)
    requires o <= |s| == |t| && Chain(s, 0, o) && forall k :: 0 <= k < o ==> t[k] == s[k]
    requires forall x :: x in Starts(s, 0, o) ==> x + HEADER_LEN <= |s| && AsJudged(s, x, judge(x))
    ensures Chain(t, 0, o) && forall x :: x in Starts(t, 0, o) ==> x + HEADER_LEN <= |t| && AsJudged(t, x, judge(x))
  {
    hide Starts, Chain, AsJudged;
    KeptBefore(s, t, o);
    forall x | x in Starts(t, 0, o) ensures x + HEADER_LEN <= |t| && AsJudged(t, x, judge(x)) {
      StartsGood(s, 0, o, x);
      AsJudgedFrame(s, t, x, o, judge(x));
    }
  }

  lemma {:induction false} JudgedEntry(s: seq<Byte>, t: seq<Byte>, prev: int, was: nat, cur: nat, blockLen: nat,
                                       judge: nat -> Judgement)
    requires cur < blockLen <= |s| == |t| && AllJudged(s, prev, was, cur, blockLen, judge)
    requires (forall k :: 0 <= k < cur ==> t[k] == s[k]) && GoodEntry(t, cur, blockLen) && AsJudged(t, cur, judge(cur))
    ensures AllJudged(t, cur, cur, cur + RecLen(t, cur), blockLen, judge)
  {
    hide Starts, Chain, AsJudged;
    JudgedBefore(s, t, cur, judge);
    MultiplesOfFour(cur, RecLen(t, cur));
    OneMoreStart(t, cur, cur + RecLen(t, cur));
  }

  lemma {:induction false} JudgedSalvage(s: seq<Byte>, t: seq<Byte>, prev: int, was: nat, cur: nat, offset: nat,
                                         blockLen: nat, inodesCount: nat, judge: nat -> Judgement)
    requires Geometry(s, prev, cur, blockLen) && AllJudged(s, prev, was, cur, blockLen, judge) && |t| == |s|
    requires SalvagedTo(s, prev, cur, blockLen, inodesCount, t, offset)
    requires Prefix(s, prev, cur) ==> Prefix(t, prev, Reach(offset, blockLen))
    ensures AllJudged(t, prev, cur, offset, blockLen, judge)
  {
    hide Starts, Chain, AsJudged;
    if prev != NO_ENTRY {
      BeforePrev(s, prev, cur);
      JudgedBefore(s, t, prev, judge);
      SameButLength(s, prev, cur, blockLen, inodesCount, t, offset);
      AsJudgedFrame(s, t, prev, cur, judge(prev));
      OneMoreStart(t, prev, Reach(offset, blockLen));
    } else {
      assert Chain(t, 0, 0) && Starts(t, 0, 0) == {} by {
        EmptyChain(t);
      }
    }
  }

  lemma {:induction false} EmptyChain(s: seq<Byte>)
    ensures Chain(s, 0, 0) && Starts(s, 0, 0) == {}
  {
  }

  /** Before the record at `cur` a salvage changes only the length of the one before it. */
  lemma {:induction false} SameButLength(s: seq<Byte>, prev: int, cur: nat, blockLen: nat, inodesCount: nat,
                                         t: seq<Byte>, offset: nat)
    requires Geometry(s, prev, cur, blockLen) && SalvagedTo(s, prev, cur, blockLen, inodesCount, t, offset)
    ensures |t| == |s| && forall k :: 0 <= k < cur && k != prev + 4 && k != prev + 5 ==> t[k] == s[k]
  {
  }

  /** The repair of the final length writes where no name is. */
  lemma {:induction false} JudgedAtEnd(s: seq<Byte>, t: seq<Byte>, prev: int, cur: nat, offset: nat, blockLen: nat,
                                       judge: nat -> Judgement)
    requires 0 < blockLen <= |s| == |t| && blockLen <= offset && AllJudged(s, prev, cur, offset, blockLen, judge)
    requires t == s || (offset > blockLen && prev + MIN_REC_LEN <= cur
                        && forall k :: 0 <= k < cur && k < |s| ==> t[k] == s[k])
    requires Prefix(t, prev, blockLen)
    ensures Chain(t, 0, blockLen)
    ensures forall o :: o in Starts(t, 0, blockLen) ==> o + HEADER_LEN <= |t| && AsJudged(t, o, judge(o))
  {
    hide Starts, Chain, AsJudged;
    if t != s {
      BeforePrev(s, prev, blockLen);
      JudgedBefore(s, t, prev, judge);
      AsJudgedFrame(s, t, prev, cur, judge(prev));
      OneMoreStart(t, prev, blockLen);
    }
  }

  /** Once it has been checked the first entry is `.` and the second `..`, if the answers allow it; its
      inode number is that of the directory, unless the entry was cleared. */
  predicate IsDotEntry(s: seq<Byte>, o: nat, dotState: nat, ino: nat, dot: DotAnswers)
    requires o + MIN_REC_LEN <= |s|
  {
    && (dotState == 0 && dot.name ==> IsDots(s, o, 1))
    && (dotState == 0 && dot.inode ==> InodeOf(s, o) == ino || InodeOf(s, o) == 0)
    && (dotState == 1 && dot.parent ==> IsDots(s, o, 2))
  }

  /** The first two entries of a directory, as far as the loop has come. */
  ghost predicate Dotted(s: seq<Byte>, prev: int, dotState: nat, ino: nat, dot: DotAnswers)
  {
    && (dotState == 0 ==> prev == NO_ENTRY) && (dotState == 1 ==> prev == 0)
    && (dotState > 0 ==> MIN_REC_LEN <= |s| && IsDotEntry(s, 0, 0, ino, dot))
    && (dotState > 1 ==> MIN_REC_LEN <= RecLen(s, 0) && (prev == RecLen(s, 0) || RecLen(s, 0) + MIN_REC_LEN <= prev)
                         && prev + MIN_REC_LEN <= |s| && IsDotEntry(s, RecLen(s, 0), 1, ino, dot))
  }

  /** They are told from their inode number and name, which a salvage leaves alone. */
  lemma {:induction false} DottedFrame(s: seq<Byte>, t: seq<Byte>, prev: int, cur: nat, dotState: nat, ino: nat,
                                       dot: DotAnswers)
    requires Dotted(s, prev, dotState, ino, dot) && |t| == |s|
    requires prev != NO_ENTRY ==> 0 <= prev && prev + MIN_REC_LEN <= cur
    requires forall k :: 0 <= k < cur && k < |s| && k != prev + 4 && k != prev + 5 ==> t[k] == s[k]
    ensures Dotted(t, prev, dotState, ino, dot)
  {
  }

  lemma {:induction false} DottedSalvage(s: seq<Byte>, t: seq<Byte>, prev: int, cur: nat, offset: nat, blockLen: nat,
                                         inodesCount: nat, dotState: nat, ino: nat, dot: DotAnswers)
    requires Geometry(s, prev, cur, blockLen) && SalvagedTo(s, prev, cur, blockLen, inodesCount, t, offset)
    requires Dotted(s, prev, dotState, ino, dot)
    ensures Dotted(t, prev, dotState, ino, dot)
  {
    hide Dotted;
    DottedFrame(s, t, prev, cur, dotState, ino, dot);
  }

  lemma {:induction false} DottedEntry(s: seq<Byte>, t: seq<Byte>, prev: int, cur: nat, dotState: nat, ino: nat,
                                       dot: DotAnswers)
    requires Dotted(s, prev, dotState, ino, dot) && cur + MIN_REC_LEN <= |s| == |t| && LinksUp(s, prev, cur)
    requires (forall k :: 0 <= k < cur ==> t[k] == s[k]) && IsDotEntry(t, cur, dotState, ino, dot)
    ensures Dotted(t, cur, dotState + 1, ino, dot)
  {
    if dotState > 0 {
      hide IsDots, InodeOf, RecLen, NameLen;
      SameDots(s, t, 0, 1);
      SameDots(s, t, if dotState > 1 then RecLen(s, 0) else 0, 2);
    }
  }

  lemma {:induction false} SameDots(s: seq<Byte>, t: seq<Byte>, o: nat, len: nat)
    requires len <= 2 && o + MIN_REC_LEN <= |s| && |t| == |s| && forall k :: o <= k < o + MIN_REC_LEN ==> t[k] == s[k]
    ensures IsDots(t, o, len) == IsDots(s, o, len) && InodeOf(t, o) == InodeOf(s, o) && RecLen(t, o) == RecLen(s, o)
  {
  }

  lemma {:induction false} DottedAtEnd(s: seq<Byte>, prev: int, dotState: nat, ino: nat, dot: DotAnswers, blockLen: nat)
    requires Dotted(s, prev, dotState, ino, dot) && 0 < blockLen <= |s| && LinksUp(s, prev, blockLen)
    ensures MIN_REC_LEN <= |s| && IsDotEntry(s, 0, 0, ino, dot)
    ensures RecLen(s, 0) < blockLen ==> RecLen(s, 0) + MIN_REC_LEN <= |s| && IsDotEntry(s, RecLen(s, 0), 1, ino, dot)
  {
  }

  lemma {:induction false} NoDotsYet(s: seq<Byte>, ino: nat, dot: DotAnswers)
    ensures Dotted(s, NO_ENTRY, 0, ino, dot)
  {
  }

  lemma {:induction false} DottedAfterPatch(s: seq<Byte>, t: seq<Byte>, prev: int, cur: nat, offset: nat, dotState: nat,
                                            ino: nat, dot: DotAnswers, blockLen: nat)
    requires Dotted(s, prev, dotState, ino, dot) && 0 < blockLen <= |s| == |t| && Passed(t, prev, blockLen)
    requires t == s || (0 <= prev && prev + MIN_REC_LEN <= cur && forall k :: 0 <= k < cur && k < |s| ==> t[k] == s[k])
    ensures MIN_REC_LEN <= |t| && IsDotEntry(t, 0, 0, ino, dot)
    ensures RecLen(t, 0) + MIN_REC_LEN <= blockLen ==> IsDotEntry(t, RecLen(t, 0), 1, ino, dot)
  {
    hide Dotted, IsDotEntry;
    if t != s {
      DottedFrame(s, t, prev, cur, dotState, ino, dot);
    }
    DottedAtEnd(t, prev, dotState, ino, dot, blockLen);
  }

  /** One good entry, as the loop sees it. */
  method CheckEntry(buf: array<Byte>, cur: nat, blockLen: nat, dotState: nat, ino: nat, dot: DotAnswers, j: Judgement)
    returns (modified: bool, failed: bool)
    requires blockLen <= buf.Length < 65536 && GoodEntry(buf[..], cur, blockLen)
    requires 0 < ino < U32
    modifies buf
    ensures Link(buf[..], cur, blockLen) && buf[blockLen..] == old(buf[blockLen..]) && cur + MIN_REC_LEN <= blockLen
    ensures failed ==> j.abort || (dotState == 1 && !dot.known)
    ensures !Cuts(old(buf[..]), cur, dotState, dot) ==> EntryRewritten(old(buf[..]), buf[..], cur, blockLen)
    ensures !modified ==> buf[..] == old(buf[..])
    ensures dotState > 1 ==> ContentsTouched(old(buf[..]), buf[..], cur)
    ensures dotState > 1 && !failed ==> ContentsJudged(old(buf[..]), buf[..], cur, j)
    ensures !failed ==> AsJudged(buf[..], cur, j)
    ensures !failed ==> IsDotEntry(buf[..], cur, dotState, ino, dot)
  {
    hide EntryRewritten, ContentsTouched, ContentsJudged, AsJudged, GoodEntry, Link, IsDots, RecLen, CutsName;
    ghost var s := buf[..];
    modified, failed := CheckDots(buf, cur, blockLen, dotState, ino, dot);
    if !failed {
      ghost var t := buf[..];
      var changed;
      changed, failed := CheckContents(buf, cur, j);
      TouchedTail(t, buf[..], cur, blockLen);
      if !failed {
        JudgedDots(t, buf[..], cur, j, 1);
        JudgedDots(t, buf[..], cur, j, 2);
        JudgedIsAsJudged(t, buf[..], cur, j);
      }
      modified := modified || changed;
      if !Cuts(s, cur, dotState, dot) {
        RewriteThenTouch(s, t, buf[..], cur, blockLen);
      }
    }
  }

  /** The checks of the first and the second entry. */
  method CheckDots(buf: array<Byte>, cur: nat, blockLen: nat, dotState: nat, ino: nat, dot: DotAnswers)
    returns (modified: bool, failed: bool)
    requires blockLen <= buf.Length < 65536 && GoodEntry(buf[..], cur, blockLen)
    requires 0 < ino < U32
    modifies buf
    ensures Link(buf[..], cur, blockLen) && buf[blockLen..] == old(buf[blockLen..]) && cur + MIN_REC_LEN <= blockLen
    ensures cur + HEADER_LEN + NameLen(buf[..], cur) <= blockLen
    ensures failed ==> dotState == 1 && !dot.known
    ensures !Cuts(old(buf[..]), cur, dotState, dot) ==> EntryRewritten(old(buf[..]), buf[..], cur, blockLen)
    ensures !modified ==> buf[..] == old(buf[..])
    ensures dotState > 1 ==> !modified && ContentsTouched(buf[..], buf[..], cur)
    ensures IsDotEntry(buf[..], cur, dotState, ino, dot)
  {
    hide EntryRewritten, ContentsTouched, GoodEntry, Link, IsDots, RecLen, CutsName;
    ghost var s := buf[..];
    modified, failed := false, false;
    RewrittenSelf(s, cur, blockLen);
    if dotState == 0 {
      modified := CheckDot(buf, cur, blockLen, ino, dot);
    } else if dotState == 1 {
      modified, failed := CheckDotDot(buf, cur, blockLen, dot.known, dot.parent);
    }
    if !Cuts(s, cur, dotState, dot) {
      RewrittenFits(s, buf[..], cur, blockLen);
    }
  }

  /** The repair of a final record length that misses the end of the block.  It is reached only
      after a salvage swallowed the rest of a block with a checksum tail, and then it writes
      inside a record that prev has already taken over. */
  method PatchFinalRecLen(buf: array<Byte>, prev: int, cur: nat, len: nat, blockLen: nat)
    requires blockLen <= buf.Length && len < 65536
    requires prev != NO_ENTRY && LinksUp(buf[..], prev, blockLen)
    requires prev + MIN_REC_LEN <= cur && cur + HEADER_LEN <= blockLen
    modifies buf
    ensures LinksUp(buf[..], prev, blockLen)
    ensures Prefix(old(buf[..]), prev, blockLen) ==> Prefix(buf[..], prev, blockLen)
    ensures Passed(old(buf[..]), prev, blockLen) ==> Passed(buf[..], prev, blockLen)
    ensures buf[..] == old(buf[..])[cur + 4 := Lo(len)][cur + 5 := Hi(len)]
    ensures buf[blockLen..] == old(buf[blockLen..])
  {
    ghost var s := buf[..];
    buf[cur + 4] := Lo(len);
    buf[cur + 5] := Hi(len);
    ChainFrame(s, buf[..], 0, prev);
    if Passed(s, prev, blockLen) {
      PassedFrame(s, buf[..], prev, blockLen, blockLen);
    }
  }

  /** What the loop has established about the block when nobody cut a name. */
  ghost predicate Kept(s0: seq<Byte>, s: seq<Byte>, prev: int, offset: nat, blockLen: nat, salvages: nat)
    requires blockLen <= |s0| && blockLen <= |s|
  {
    && Prefix(s, prev, Reach(offset, blockLen))
    && if salvages == 0 then offset <= blockLen && Tracks(s0, s, offset, blockLen) else !Chain(s0, 0, blockLen)
  }

  /** The same, together with what is known of a block that is being sifted. */
  ghost predicate Held(s0: seq<Byte>, s: seq<Byte>, prev: int, offset: nat, blockLen: nat, salvages: nat, cut: bool,
                       sifting: bool)
    requires blockLen <= |s0| && blockLen <= |s|
  {
    && (!cut ==> Kept(s0, s, prev, offset, blockLen, salvages))
    && (sifting ==> Sifted(s0, s, prev, offset, blockLen))
  }

  lemma {:induction false} PassedEntry(s: seq<Byte>, t: seq<Byte>, prev: int, cur: nat, blockLen: nat)
    requires cur <= blockLen <= |s| == |t| && Passed(s, prev, cur) && Link(t, cur, blockLen)
    requires cur > 0 ==> EntryRewritten(s, t, cur, blockLen)
    ensures LinksUp(s, prev, cur) && cur + MIN_REC_LEN <= |s| && (forall k :: 0 <= k < cur ==> t[k] == s[k])
    ensures MIN_REC_LEN <= RecLen(t, cur) <= blockLen - cur && Passed(t, cur, cur + RecLen(t, cur))
    ensures EntryRewritten(s, t, cur, blockLen) ==> GoodEntry(t, cur, blockLen)
  {
    hide EntryRewritten, Chain;
    MultiplesOfFour(cur, RecLen(t, cur));
    if EntryRewritten(s, t, cur, blockLen) {
      SameBefore(s, t, cur, blockLen);
    }
    PassedOneMore(s, t, prev, cur);
  }

  lemma {:induction false} HeldEntry(s0: seq<Byte>, s: seq<Byte>, t: seq<Byte>, prev: int, cur: nat, blockLen: nat,
                                     salvages: nat, cut: bool, sifting: bool)
    requires blockLen <= |s0| && blockLen <= |s| == |t| && GoodEntry(s, cur, blockLen)
    requires Held(s0, s, prev, cur, blockLen, salvages, cut, sifting)
    requires (!cut ==> EntryRewritten(s, t, cur, blockLen)) && (sifting ==> ContentsTouched(s, t, cur))
    requires cur + HEADER_LEN <= |t|
    ensures Held(s0, t, cur, cur + RecLen(t, cur), blockLen, salvages, cut, sifting)
  {
    hide EntryRewritten, ContentsTouched, Kept, Sifted;
    if !cut {
      KeptEntry(s0, s, t, prev, cur, blockLen, salvages);
    }
    if sifting {
      SiftedEntry(s0, s, t, prev, cur, blockLen);
    }
  }

  /** Check a good entry and go on to the next. */
  method PassEntry(buf: array<Byte>, ghost prev: int, cur: nat, blockLen: nat, dotState: nat, ino: nat, dot: DotAnswers,
                   judge: nat -> Judgement, recLen: nat, modified: bool, ghost s0: seq<Byte>, ghost cut: bool,
                   ghost sifting: bool, ghost salvages: nat, ghost first: bool, ghost was: nat)
    returns (recLen': nat, modified': bool, failed: bool)
    requires blockLen <= buf.Length < 65536 && GoodEntry(buf[..], cur, blockLen) && recLen == RecLen(buf[..], cur)
    requires 0 < ino < U32 && blockLen <= |s0| && Passed(buf[..], prev, cur) && (dotState == 0 ==> cur == 0)
    requires Held(s0, buf[..], prev, cur, blockLen, salvages, cut, sifting)
    requires (!cut ==> !Cuts(buf[..], cur, dotState, dot)) && (sifting ==> dotState > 1)
    requires first ==> Dotted(buf[..], prev, dotState, ino, dot)
    requires !cut ==> AllJudged(buf[..], prev, was, cur, blockLen, judge)
    modifies buf
    ensures buf[blockLen..] == old(buf[blockLen..]) && (failed ==> judge(cur).abort || !dot.known)
    ensures (modified ==> modified') && (!modified' ==> buf[..] == old(buf[..]))
    ensures !failed && !cut ==> AllJudged(buf[..], cur, cur, cur + recLen', blockLen, judge)
    ensures !failed ==> MIN_REC_LEN <= recLen' <= blockLen - cur && Passed(buf[..], cur, cur + recLen')
    ensures !failed ==> Held(s0, buf[..], cur, cur + recLen', blockLen, salvages, cut, sifting)
    ensures !failed && first ==> Dotted(buf[..], cur, dotState + 1, ino, dot)
  {
    hide EntryRewritten, Held, ContentsTouched, Dotted, IsDotEntry, AllJudged, AsJudged, ContentsJudged, Passed,
         LinksUp, Link, GoodEntry, RecLen, CutsName;
    ghost var s := buf[..];
    recLen', modified' := recLen, modified;
    var changed;
    changed, failed := CheckEntry(buf, cur, blockLen, dotState, ino, dot, judge(cur));
    modified' := modified || changed;
    if failed {
      return;
    }
    PassedEntry(s, buf[..], prev, cur, blockLen);
    HeldEntry(s0, s, buf[..], prev, cur, blockLen, salvages, cut, sifting);
    if !cut {
      JudgedEntry(s, buf[..], prev, was, cur, blockLen, judge);
    }
    if first {
      DottedEntry(s, buf[..], prev, cur, dotState, ino, dot);
    }
    if modified' {
      recLen' := RecLen(buf[..], cur);
    }
  }

  /** Salvage a record that is not good. */
  method SalvageEntry(buf: array<Byte>, prev: int, cur: nat, blockLen: nat, inodesCount: nat, ghost dotState: nat,
                      ghost ino: nat, ghost dot: DotAnswers, ghost judge: nat -> Judgement, ghost s0: seq<Byte>,
                      ghost cut: bool, ghost sifting: bool, ghost salvages: nat, ghost first: bool, ghost was: nat)
    returns (offset: nat)
    requires blockLen <= buf.Length < 65536 && blockLen % 4 == 0 && MIN_REC_LEN <= blockLen <= |s0|
    requires cur < blockLen && Passed(buf[..], prev, cur) && !GoodEntry(buf[..], cur, blockLen)
    requires Held(s0, buf[..], prev, cur, blockLen, salvages, cut, sifting)
    requires first ==> Dotted(buf[..], prev, dotState, ino, dot)
    requires !cut ==> AllJudged(buf[..], prev, was, cur, blockLen, judge)
    modifies buf
    ensures offset <= blockLen || (offset == buf.Length && prev + MIN_REC_LEN <= cur && cur + HEADER_LEN <= blockLen)
    ensures Passed(buf[..], prev, Reach(offset, blockLen)) && buf[blockLen..] == old(buf[blockLen..])
    ensures offset > cur || (offset == cur && Rank(buf[..], cur, blockLen) < Rank(old(buf[..]), cur, blockLen))
    ensures prev == NO_ENTRY ==>
              offset == 0 && Cleared(buf[..], blockLen, inodesCount) == Cleared(old(buf[..]), blockLen, inodesCount)
    ensures Held(s0, buf[..], prev, offset, blockLen, salvages + 1, cut, sifting)
    ensures first ==> Dotted(buf[..], prev, dotState, ino, dot)
    ensures !cut ==> AllJudged(buf[..], prev, cur, offset, blockLen, judge)
  {
    hide Held, Prefix, GoodEntry, Link, Rank, RecLen, SalvagedTo, Dotted, AllJudged, Chain, Cleared;
    ghost var s := buf[..];
    offset := SalvageStep(buf, prev, cur, blockLen, inodesCount);
    HeldSalvage(s0, s, buf[..], prev, cur, offset, blockLen, inodesCount, salvages, cut, sifting);
    if first {
      DottedSalvage(s, buf[..], prev, cur, offset, blockLen, inodesCount, dotState, ino, dot);
    }
    if !cut {
      JudgedSalvage(s, buf[..], prev, was, cur, offset, blockLen, inodesCount, judge);
    }
  }

  /** What is done after the last record of the block. */
  method FinishBlock(buf: array<Byte>, prev: int, cur: nat, offset: nat, recLen: nat, blockLen: nat, patch: bool,
                     modified: bool, ghost dotState: nat, ghost ino: nat, ghost dot: DotAnswers,
                     ghost judge: nat -> Judgement, ghost s0: seq<Byte>, ghost cut: bool, ghost sifting: bool,
                     ghost salvages: nat, ghost first: bool)
    returns (modified': bool)
    requires MIN_REC_LEN <= blockLen <= buf.Length < 65536 && blockLen <= |s0|
    requires offset == blockLen
             || (blockLen < offset == buf.Length && prev + MIN_REC_LEN <= cur && cur + HEADER_LEN <= blockLen)
    requires Passed(buf[..], prev, blockLen) && Held(s0, buf[..], prev, offset, blockLen, salvages, cut, sifting)
    requires first ==> Dotted(buf[..], prev, dotState, ino, dot)
    requires !cut ==> AllJudged(buf[..], prev, cur, offset, blockLen, judge)
    modifies buf
    ensures Tiled(buf[..], blockLen) && buf[blockLen..] == old(buf[blockLen..])
    ensures (modified ==> modified') && (!modified' ==> buf[..] == old(buf[..]))
    ensures !cut ==> Chain(buf[..], 0, blockLen) && (salvages == 0 <==> Chain(s0, 0, blockLen))
    ensures !cut && salvages == 0 ==> Starts(s0, 0, blockLen) <= Starts(buf[..], 0, blockLen)
    ensures !cut ==> forall o :: o in Starts(buf[..], 0, blockLen) ==>
                       o + HEADER_LEN <= |buf[..]| && AsJudged(buf[..], o, judge(o))
    ensures sifting ==> Followable(s0, 0, blockLen) && Chain(buf[..], 0, blockLen)
    ensures sifting ==> Starts(buf[..], 0, blockLen) == GoodStarts(s0, 0, blockLen)
    ensures first ==> IsDotEntry(buf[..], 0, 0, ino, dot)
    ensures first && RecLen(buf[..], 0) + MIN_REC_LEN <= blockLen ==>
              IsDotEntry(buf[..], RecLen(buf[..], 0), 1, ino, dot)
  {
    hide Chain, Starts, Held, Prefix, GoodEntry, Link, Tiled, RecLen, Followable, GoodStarts, Dotted, IsDotEntry,
         AllJudged, AsJudged;
    HeldEnd(s0, buf[..], prev, offset, blockLen, salvages, cut, sifting);
    ghost var s := buf[..];
    modified' := modified;
    if offset != blockLen {
      if patch {
        PatchFinalRecLen(buf, prev, cur, (recLen + offset - blockLen) % 65536, blockLen);
        modified' := true;
      }
    }
    if first {
      DottedAfterPatch(s, buf[..], prev, cur, offset, dotState, ino, dot, blockLen);
    }
    PassedIsTiled(buf[..], prev, blockLen);
    if !cut {
      JudgedAtEnd(s, buf[..], prev, cur, offset, blockLen, judge);
      PrefixIsChain(buf[..], prev, blockLen);
    }
  }

  /** The entry loop of check_dir_block on block number `blockCount` of a directory.
      `salvage(k)` is the answer to question number `k` whether to salvage, `judge(o)` what is decided
      about the entry at `o`, and `patch` whether a wrong final length is to be repaired.  Only a salvage
      that is declined makes it abandon the block, or a directory that the table does not know.
      For every content of the block and all answers the loop ends, and the checksum tail is never
      written.  If the check was not abandoned the records then tile the usable part exactly, and all
      but perhaps the first are good.  If the answers to check_dot did not cut the name of the first
      entry it is good too, and a salvage was asked for if and only if the block did not already tile.
      After the first block of a directory: if the lengths can be followed and the first record is good,
      the records at the end are exactly those that were good. */
  method CheckDirBlock(buf: array<Byte>, blockLen: nat, blockCount: nat, ino: nat, inodesCount: nat, dot: DotAnswers,
                       salvage: nat -> bool, judge: nat -> Judgement, patch: bool)
    returns (abandoned: bool, salvages: nat, modified: bool)
    requires MIN_REC_LEN <= blockLen <= buf.Length < 65536 && blockLen % 4 == 0
    requires 0 < ino < U32
    modifies buf
    ensures !abandoned ==> Tiled(buf[..], blockLen)
    ensures var cut := blockCount == 0 && CutsName(Cleared(old(buf[..]), blockLen, inodesCount), 0, dot);
            !abandoned && !cut ==>
              && Chain(buf[..], 0, blockLen) && (salvages == 0 <==> Chain(old(buf[..]), 0, blockLen))
              && (salvages == 0 ==> Starts(old(buf[..]), 0, blockLen) <= Starts(buf[..], 0, blockLen))
    ensures !abandoned && blockCount > 0 && Followable(old(buf[..]), 0, blockLen)
            && GoodEntry(old(buf[..]), 0, blockLen) ==>
              Chain(buf[..], 0, blockLen) && Starts(buf[..], 0, blockLen) == GoodStarts(old(buf[..]), 0, blockLen)
    ensures !abandoned && blockCount == 0 ==> IsDotEntry(buf[..], 0, 0, ino, dot)
    ensures !abandoned && blockCount == 0 && RecLen(buf[..], 0) + MIN_REC_LEN <= blockLen ==>
              IsDotEntry(buf[..], RecLen(buf[..], 0), 1, ino, dot)
    ensures var cut := blockCount == 0 && CutsName(Cleared(old(buf[..]), blockLen, inodesCount), 0, dot);
            !abandoned && !cut ==>
              && Chain(buf[..], 0, blockLen)
              && forall o :: o in Starts(buf[..], 0, blockLen) ==>
                   o + HEADER_LEN <= |buf[..]| && AsJudged(buf[..], o, judge(o))
    ensures buf[blockLen..] == old(buf[blockLen..]) && (!modified ==> buf[..] == old(buf[..]))
    ensures forall k :: 0 <= k < salvages ==> salvage(k)
    ensures abandoned ==> !salvage(salvages) || !dot.known || exists o: nat :: judge(o).abort
  {
    hide Chain, Starts, EntryRewritten, Cleared, Held, Prefix, GoodEntry, Link, LinksUp, Rank, Tiled, CutsName, RecLen,
         SalvagedTo, Followable, GoodStarts, Dotted, IsDotEntry, AllJudged, AsJudged;
    ghost var s0 := buf[..];
    KeptAtStart(s0, blockLen);
    ghost var cut := blockCount == 0 && CutsName(Cleared(s0, blockLen, inodesCount), 0, dot);
    var offset, prev, dotState := 0, NO_ENTRY, if blockCount == 0 then 0 else 2;
    var cur: nat, recLen: nat := 0, 0;
    abandoned, salvages, modified := false, 0, false;
    ghost var sifting := blockCount > 0 && Followable(s0, 0, blockLen) && GoodEntry(s0, 0, blockLen);
    HeldAtStart(s0, blockLen, cut, sifting);
    NoDotsYet(s0, ino, dot);
    NoneJudged(s0, blockLen, judge);
    while offset < blockLen
      invariant offset <= blockLen
                || (offset == buf.Length && prev + MIN_REC_LEN <= cur && cur + HEADER_LEN <= blockLen)
      invariant Passed(buf[..], prev, Reach(offset, blockLen))
      invariant prev == NO_ENTRY ==>
                  offset == 0 && Cleared(buf[..], blockLen, inodesCount) == Cleared(s0, blockLen, inodesCount)
      invariant dotState == 0 ==> prev == NO_ENTRY && blockCount == 0
      invariant sifting ==> dotState > 1
      invariant Held(s0, buf[..], prev, offset, blockLen, salvages, cut, sifting)
      invariant buf[blockLen..] == s0[blockLen..]
      invariant blockCount == 0 ==> Dotted(buf[..], prev, dotState, ino, dot)
      invariant !cut ==> AllJudged(buf[..], prev, cur, offset, blockLen, judge)
      invariant !modified ==> buf[..] == s0
      invariant !abandoned && forall k :: 0 <= k < salvages ==> salvage(k)
      decreases blockLen - offset, if offset < blockLen then Rank(buf[..], offset, blockLen) else 0
    {
      ghost var was := cur;
      cur := offset;
      recLen := if blockLen - cur < HEADER_LEN then MIN_REC_LEN else RecLen(buf[..], cur);
      ghost var s := buf[..];
      Judged(s, cur, blockLen, recLen);
      if cur + recLen > blockLen || recLen < 12 || recLen % 4 != 0 || buf[cur + 6] + HEADER_LEN > recLen {
        if !salvage(salvages) {
          abandoned := true;
          return;
        }
        offset := SalvageEntry(buf, prev, cur, blockLen, inodesCount, dotState, ino, dot, judge, s0, cut, sifting,
                               salvages, blockCount == 0, was);
        salvages := salvages + 1;
        modified := true;
      } else {
        ClearedIsGood(s, blockLen, inodesCount);
        recLen, modified, abandoned :=
          PassEntry(buf, prev, cur, blockLen, dotState, ino, dot, judge, recLen, modified, s0, cut, sifting, salvages,
                    blockCount == 0, was);
        if abandoned {
          return;
        }
        prev := cur;
        offset := cur + recLen;
        dotState := dotState + 1;
      }
    }
    modified := FinishBlock(buf, prev, cur, offset, recLen, blockLen, patch, modified, dotState, ino, dot, judge, s0,
                            cut, sifting, salvages, blockCount == 0);
  }

  /** The test of the loop is exactly whether the entry is good. */
  lemma {:induction false} Judged(s: seq<Byte>, cur: nat, blockLen: nat, recLen: nat)
    requires cur < blockLen <= |s|
    requires recLen == if blockLen - cur < HEADER_LEN then MIN_REC_LEN else RecLen(s, cur)
    ensures (cur + recLen > blockLen || recLen < 12 || recLen % 4 != 0 || s[cur + 6] + HEADER_LEN > recLen)
            <==> !GoodEntry(s, cur, blockLen)
  {
  }

  lemma {:induction false} KeptAtStart(s: seq<Byte>, blockLen: nat)
    requires MIN_REC_LEN <= blockLen <= |s| < 65536 && blockLen % 4 == 0
    ensures Kept(s, s, NO_ENTRY, 0, blockLen, 0) && Geometry(s, NO_ENTRY, 0, blockLen) && Passed(s, NO_ENTRY, 0)
  {
  }

  lemma {:induction false} HeldAtStart(s: seq<Byte>, blockLen: nat, cut: bool, sifting: bool)
    requires MIN_REC_LEN <= blockLen <= |s| < 65536 && blockLen % 4 == 0
    requires sifting ==> Followable(s, 0, blockLen) && GoodEntry(s, 0, blockLen)
    ensures Held(s, s, NO_ENTRY, 0, blockLen, 0, cut, sifting)
  {
    hide Kept, Sifted;
    KeptAtStart(s, blockLen);
    if sifting {
      SiftedAtStart(s, blockLen);
    }
  }

  lemma {:induction false} HeldSalvage(s0: seq<Byte>, s: seq<Byte>, t: seq<Byte>, prev: int, cur: nat, offset: nat,
                                       blockLen: nat, inodesCount: nat, salvages: nat, cut: bool, sifting: bool)
    requires blockLen <= |s0| && cur < blockLen <= |s| && blockLen <= |t|
    requires Held(s0, s, prev, cur, blockLen, salvages, cut, sifting) && Geometry(s, prev, cur, blockLen)
    requires !GoodEntry(s, cur, blockLen) && (Prefix(s, prev, cur) ==> Prefix(t, prev, Reach(offset, blockLen)))
    requires SalvagedTo(s, prev, cur, blockLen, inodesCount, t, offset)
    ensures Held(s0, t, prev, offset, blockLen, salvages + 1, cut, sifting)
  {
    hide Kept, Sifted, SalvagedTo, Prefix, GoodEntry;
    if !cut {
      KeptSalvage(s0, s, t, prev, cur, offset, blockLen, salvages);
    }
    if sifting {
      SiftedSalvage(s0, s, prev, cur, blockLen, inodesCount, t, offset);
    }
  }

  lemma {:induction false} HeldEnd(s0: seq<Byte>, s: seq<Byte>, prev: int, offset: nat, blockLen: nat, salvages: nat,
                                   cut: bool, sifting: bool)
    requires blockLen <= |s0| && blockLen <= |s| && blockLen <= offset
    requires Held(s0, s, prev, offset, blockLen, salvages, cut, sifting)
    ensures !cut ==> Prefix(s, prev, blockLen) && (salvages == 0 <==> Chain(s0, 0, blockLen))
    ensures !cut && salvages == 0 ==>
              offset == blockLen && Chain(s, 0, blockLen) && Starts(s0, 0, blockLen) <= Starts(s, 0, blockLen)
    ensures sifting ==>
              && offset == blockLen && Followable(s0, 0, blockLen)
              && Chain(s, 0, blockLen) && Starts(s, 0, blockLen) == GoodStarts(s0, 0, blockLen)
  {
    hide Kept, Starts, Chain;
    if !cut {
      KeptEnd(s0, s, prev, offset, blockLen, salvages);
    }
  }

  /** A record that is not good means that the block did not tile to begin with. */
  lemma {:induction false} KeptSalvage(s0: seq<Byte>, s: seq<Byte>, t: seq<Byte>, prev: int, cur: nat, offset: nat,
                                       blockLen: nat, salvages: nat)
    requires blockLen <= |s0| && cur < blockLen <= |s| && blockLen <= |t| && Kept(s0, s, prev, cur, blockLen, salvages)
    requires !GoodEntry(s, cur, blockLen) && (Prefix(s, prev, cur) ==> Prefix(t, prev, Reach(offset, blockLen)))
    ensures Kept(s0, t, prev, offset, blockLen, salvages + 1)
  {
  }

  lemma {:induction false} KeptEntry(s0: seq<Byte>, s: seq<Byte>, t: seq<Byte>, prev: int, cur: nat, blockLen: nat,
                                     salvages: nat)
    requires blockLen <= |s0| && cur < blockLen <= |s| && Kept(s0, s, prev, cur, blockLen, salvages)
    requires EntryRewritten(s, t, cur, blockLen)
    ensures Kept(s0, t, cur, cur + RecLen(t, cur), blockLen, salvages)
  {
    hide Tracks;
    TracksEntry(s0, s, t, prev, cur, blockLen);
  }

  lemma {:induction false} KeptEnd(s0: seq<Byte>, s: seq<Byte>, prev: int, offset: nat, blockLen: nat, salvages: nat)
    requires blockLen <= |s0| && blockLen <= |s| && blockLen <= offset && Kept(s0, s, prev, offset, blockLen, salvages)
    ensures Prefix(s, prev, blockLen) && (salvages == 0 <==> Chain(s0, 0, blockLen))
    ensures salvages == 0 ==>
              offset == blockLen && Chain(s, 0, blockLen) && Starts(s0, 0, blockLen) <= Starts(s, 0, blockLen)
  {
    if salvages == 0 {
      TracksEnd(s0, s, blockLen);
    }
  }

  lemma {:induction false} ClearedIsGood(s: seq<Byte>, blockLen: nat, inodesCount: nat)
    requires MIN_REC_LEN <= blockLen <= |s| < 65536 && blockLen % 4 == 0
    ensures Geometry(s, NO_ENTRY, 0, blockLen) && (GoodEntry(s, 0, blockLen) ==> Cleared(s, blockLen, inodesCount) == s)
  {
  }
}

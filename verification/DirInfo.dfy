/**
  The table of directories that passes 1 to 3 share: an array sorted by inode number, a pointer to
  the entry that the iterator gave out last, and an iterator that is only an index into the array
  and yet survives insertions.
 */
module DirInfo {

  datatype Dir = Dir(ino: nat, dotdot: nat, parent: nat)

  /** What the table knows of a directory. */
  datatype Links = Links(dotdot: nat, parent: nat)

  // ---------------------------------------------------------------- what a table means

  ghost predicate Sorted(s: seq<Dir>)
  {
    forall i, j :: 0 <= i < j < |s| ==> s[i].ino < s[j].ino
  }

  /** The table as a map from inodes. */
  ghost function Table(s: seq<Dir>): map<nat, Links>
  {
    if s == [] then map[]
    else
      var d := s[|s| - 1];
      Table(s[..|s| - 1])[d.ino := Links(d.dotdot, d.parent)]
  }

  lemma {:induction false} TableDomain(s: seq<Dir>, ino: nat)
    ensures ino in Table(s) <==> exists i :: 0 <= i < |s| && s[i].ino == ino
    decreases |s|
  {
    if s != [] {
      var t := s[..|s| - 1];
      TableDomain(t, ino);
      if ino in Table(s) && ino != s[|s| - 1].ino {
        var i :| 0 <= i < |t| && t[i].ino == ino;
        assert s[i].ino == ino;
      }
      if i :| 0 <= i < |s| && s[i].ino == ino {
        if i < |t| {
          assert t[i].ino == ino;
        }
      }
    }
  }

  lemma {:induction false} TableSize(s: seq<Dir>)
    ensures |Table(s).Keys| <= |s|
    decreases |s|
  {
    if s != [] {
      var t, d := s[..|s| - 1], s[|s| - 1];
      TableSize(t);
      assert Table(s).Keys == Table(t).Keys + {d.ino};
    }
  }

  lemma {:induction false} TableAt(s: seq<Dir>, i: nat)
    requires Sorted(s) && i < |s|
    ensures s[i].ino in Table(s) && Table(s)[s[i].ino] == Links(s[i].dotdot, s[i].parent)
    decreases |s|
  {
    if i < |s| - 1 {
      TableAt(s[..|s| - 1], i);
    }
  }

  /** The first entry whose inode is not below `ino`. */
  function Place(s: seq<Dir>, ino: nat): (p: nat)
    ensures p <= |s|
  {
    if s == [] || s[|s| - 1].ino < ino then |s| else Place(s[..|s| - 1], ino)
  }

  /** Everything before the place is below the inode, everything from it on is not. */
  lemma {:induction false} PlaceSplits(s: seq<Dir>, ino: nat)
    requires Sorted(s)
    ensures var p := Place(s, ino);
            && (forall i :: 0 <= i < p ==> s[i].ino < ino) && (forall i :: p <= i < |s| ==> ino <= s[i].ino)
    decreases |s|
  {
    if s != [] && s[|s| - 1].ino >= ino {
      PlaceSplits(s[..|s| - 1], ino);
    }
  }

  predicate Taken(s: seq<Dir>, ino: nat)
  {
    Place(s, ino) < |s| && s[Place(s, ino)].ino == ino
  }

  /** The table with a directory added, or entered anew. */
  function Added(s: seq<Dir>, d: Dir): seq<Dir>
  {
    var p := Place(s, d.ino);
    if Taken(s, d.ino) then s[p := d] else s[..p] + [d] + s[p..]
  }

  lemma {:induction false} AddedSorted(s: seq<Dir>, d: Dir)
    requires Sorted(s)
    ensures Sorted(Added(s, d))
  {
    PlaceSplits(s, d.ino);
  }

  lemma {:induction false} AddedLength(s: seq<Dir>, d: Dir)
    ensures |s| <= |Added(s, d)| <= |s| + 1
  {
  }

  /** Adding a directory, in whatever order, is setting its entry in the map. */
  lemma {:induction false} AddedMeans(s: seq<Dir>, d: Dir)
    requires Sorted(s)
    ensures Table(Added(s, d)) == Table(s)[d.ino := Links(d.dotdot, d.parent)]
    decreases |s|
  {
    hide Added, Table;
    if s == [] {
      AddedLast(s, d);
      TableSnoc(s, d);
    } else {
      var t, l := s[..|s| - 1], s[|s| - 1];
      assert s == t + [l];
      TableSnoc(t, l);
      if l.ino < d.ino {
        AddedLast(s, d);
        TableSnoc(s, d);
      } else if l.ino == d.ino {
        AddedOver(t, l, d);
        TableSnoc(t, d);
      } else {
        AddedUnder(t, l, d);
        AddedMeans(t, d);
        TableSnoc(Added(t, d), l);
      }
    }
  }

  lemma {:induction false} TableSnoc(t: seq<Dir>, d: Dir)
    ensures Table(t + [d]) == Table(t)[d.ino := Links(d.dotdot, d.parent)]
  {
    assert (t + [d])[..|t|] == t;
  }

  lemma {:induction false} AddedLast(s: seq<Dir>, d: Dir)
    requires s == [] || s[|s| - 1].ino < d.ino
    ensures Added(s, d) == s + [d]
  {
  }

  lemma {:induction false} AddedOver(t: seq<Dir>, l: Dir, d: Dir)
    requires Sorted(t + [l]) && d.ino == l.ino
    ensures Added(t + [l], d) == t + [d]
  {
    AddedHere(t + [l], d, |t|);
  }

  lemma {:induction false} AddedUnder(t: seq<Dir>, l: Dir, d: Dir)
    requires Sorted(t + [l]) && d.ino < l.ino
    ensures Added(t + [l], d) == Added(t, d) + [l]
  {
    assert (t + [l])[..|t|] == t;
  }

  /** Entering a directory anew changes its entry in place. */
  lemma {:induction false} AddedHere(s: seq<Dir>, d: Dir, k: nat)
    requires Sorted(s) && k < |s| && s[k].ino == d.ino
    ensures Added(s, d) == s[k := d]
  {
    PlaceSplits(s, d.ino);
  }

  // ---------------------------------------------------------------- iterating

  /** Every directory of `start` has been given out, or is still ahead of the iterator. */
  ghost predicate NoneMissed(s: seq<Dir>, i: nat, start: set<nat>, given: set<nat>)
  {
    forall ino :: ino in start ==> ino in given || Ahead(s, i, ino)
  }

  ghost predicate Ahead(s: seq<Dir>, i: nat, ino: nat)
  {
    exists k :: i <= k < |s| && s[k].ino == ino
  }

  lemma {:induction false} NextMissesNone(s: seq<Dir>, i: nat, start: set<nat>, given: set<nat>)
    requires NoneMissed(s, i, start, given) && i < |s|
    ensures NoneMissed(s, i + 1, start, given + {s[i].ino})
  {
    forall ino | ino in start && ino !in given + {s[i].ino} ensures Ahead(s, i + 1, ino) {
      var k :| i <= k < |s| && s[k].ino == ino;
    }
  }

  /** An insertion moves directories away from the iterator, never behind it. */
  lemma {:induction false} AddMissesNone(s: seq<Dir>, d: Dir, i: nat, start: set<nat>, given: set<nat>)
    requires NoneMissed(s, i, start, given) && Sorted(s)
    ensures NoneMissed(Added(s, d), i, start, given)
  {
    var a, p := Added(s, d), Place(s, d.ino);
    forall ino | ino in start && ino !in given ensures Ahead(a, i, ino) {
      var k :| i <= k < |s| && s[k].ino == ino;
      assert a[if Taken(s, d.ino) || k < p then k else k + 1].ino == ino;
    }
  }

  /** What may happen while the table is being iterated. */
  datatype Event = Next | Add(d: Dir)

  datatype Progress = Progress(s: seq<Dir>, i: nat, given: set<nat>, turns: nat)

  ghost function Happen(p: Progress, e: Event): Progress
  {
    match e
    case Next => if p.i < |p.s| then Progress(p.s, p.i + 1, p.given + {p.s[p.i].ino}, p.turns + 1) else p
    case Add(d) => p.(s := Added(p.s, d))
  }

  ghost function HappenAll(p: Progress, es: seq<Event>): Progress
    decreases |es|
  {
    if es == [] then p else HappenAll(Happen(p, es[0]), es[1..])
  }

  /** However insertions are mixed into an iteration: once the iterator has come to the end, every
      directory that was there when it began has been given out, and it has given out no more
      entries than the table holds. */
  lemma {:induction false} IterationIsComplete(p: Progress, es: seq<Event>, start: set<nat>)
    requires Sorted(p.s) && NoneMissed(p.s, p.i, start, p.given) && p.turns == p.i <= |p.s|
    ensures var q := HappenAll(p, es);
            && q.turns <= |q.s| && (q.i >= |q.s| ==> start <= q.given)
    decreases |es|
  {
    if es == [] {
      if p.i >= |p.s| {
        forall ino | ino in start ensures ino in p.given {
          assert !Ahead(p.s, p.i, ino);
        }
      }
    } else {
      match es[0] {
        case Next =>
          if p.i < |p.s| {
            NextMissesNone(p.s, p.i, start, p.given);
          }
        case Add(d) =>
          AddedSorted(p.s, d);
          AddMissesNone(p.s, d, p.i, start, p.given);
      }
      IterationIsComplete(Happen(p, es[0]), es[1..], start);
    }
  }

  // ---------------------------------------------------------------- the code

  /** struct dir_info_db.  There is a table once it has an entry. */
  class DirInfoDb {
    var dirs: array<Dir>
    var count: nat
    var lastLookup: int   // index of the entry pointed to, or -1

    ghost predicate Valid()
      reads this, dirs
    {
      count <= dirs.Length && Sorted(dirs[..count]) && -1 <= lastLookup < count
    }

    ghost function Contents(): seq<Dir>
      requires Valid()
      reads this, dirs
    {
      dirs[..count]
    }

    constructor (numDirs: nat)
      ensures Valid() && fresh(dirs) && Contents() == []
    {
      dirs := new Dir[numDirs + 10](_ => Dir(0, 0, 0));
      count, lastLookup := 0, -1;
    }

    /** Make room for one more entry; the entries may have to move. */
    method Grow()
      requires Valid()
      modifies this`dirs, this`lastLookup
      ensures Valid() && count < dirs.Length && Contents() == old(Contents())
      ensures dirs == old(dirs) || (fresh(dirs) && lastLookup == -1 && dirs.Length == old(dirs.Length) + 10)
      ensures dirs == old(dirs) <==> old(count < dirs.Length)
    {
      if count >= dirs.Length {
        var bigger := new Dir[dirs.Length + 10](_ => Dir(0, 0, 0));
        for i := 0 to count
          invariant dirs == old(dirs) && lastLookup == old(lastLookup)
          invariant forall k :: 0 <= k < i ==> bigger[k] == dirs[k]
        {
          bigger[i] := dirs[i];
        }
        dirs := bigger;
        lastLookup := -1;
      }
    }

    /** Where an inode's entry is or belongs, looking from the end. */
    method Locate(ino: nat) returns (p: nat)
      requires Valid()
      ensures p == Place(Contents(), ino)
    {
      ghost var s := Contents();
      p := count;
      if count > 0 && dirs[count - 1].ino >= ino {
        p := count - 1;
        while p > 0 && dirs[p - 1].ino >= ino
          invariant 0 <= p < count && Place(s, ino) == Place(s[..p], ino)
        {
          p := p - 1;
          assert s[..p + 1][..p] == s[..p];
        }
      }
      assert s[..count] == s;
    }

    /** Move the entries from `p` on up by one. */
    method ShiftUp(p: nat)
      requires p <= count < dirs.Length
      modifies dirs
      ensures dirs[..p] == old(dirs[..p]) && dirs[p + 1..count + 1] == old(dirs[p..count])
    {
      ghost var s := dirs[..];
      var j := count;
      while j > p
        invariant p <= j <= count
        invariant forall k :: 0 <= k < j ==> dirs[k] == s[k]
        invariant forall k :: j <= k < count ==> dirs[k + 1] == s[k]
      {
        dirs[j] := dirs[j - 1];
        j := j - 1;
      }
    }

    /** Put an entry in its place. */
    method Enter(p: nat, d: Dir)
      requires Valid() && count < dirs.Length && p == Place(Contents(), d.ino)
      modifies this`count, dirs
      ensures count <= dirs.Length && old(count) <= count && dirs[..count] == Added(old(Contents()), d)
    {
      hide Place, Sorted;
      ghost var s := Contents();
      if p == count || dirs[p].ino != d.ino {
        ShiftUp(p);
        count := count + 1;
        dirs[p] := d;
        assert dirs[..count] == s[..p] + [d] + s[p..];
      } else {
        dirs[p] := d;
        assert dirs[..count] == s[p := d];
      }
    }

    /** e2fsck_add_dir_info: in the map, the directory gets `parent` as its '..' and its parent. */
    method Add(ino: nat, parent: nat)
      requires Valid()
      modifies this, dirs
      ensures Valid() && (dirs == old(dirs) || fresh(dirs))
      ensures Contents() == Added(old(Contents()), Dir(ino, parent, parent))
      ensures Table(Contents()) == old(Table(Contents()))[ino := Links(parent, parent)]
    {
      hide Added, Table, Place, Sorted;
      ghost var s := Contents();
      AddedSorted(s, Dir(ino, parent, parent));
      AddedMeans(s, Dir(ino, parent, parent));
      Grow();
      var p := Locate(ino);
      Enter(p, Dir(ino, parent, parent));
    }

    /** e2fsck_get_dir_info: the entry of an inode, by way of the pointer or by binary search. */
    method Get(ino: nat) returns (k: int)
      requires Valid()
      ensures if ino in Table(Contents()) then 0 <= k < count && dirs[k].ino == ino else k == -1
    {
      TableDomain(Contents(), ino);
      if count == 0 {
        return -1;
      }
      if lastLookup >= 0 && dirs[lastLookup].ino == ino {
        return lastLookup;
      }
      var low, high := 0, count - 1;
      if ino == dirs[low].ino {
        return low;
      }
      if ino == dirs[high].ino {
        return high;
      }
      while low < high
        invariant 0 <= low <= high < count
        invariant forall i :: 0 <= i <= low ==> dirs[i].ino != ino
        invariant forall i :: high <= i < count ==> dirs[i].ino != ino
        decreases high - low
      {
        var mid := (low + high) / 2;
        if mid == low || mid == high {
          break;
        }
        if ino == dirs[mid].ino {
          return mid;
        }
        if ino < dirs[mid].ino {
          high := mid;
        } else {
          low := mid;
        }
      }
      return -1;
    }

    /** e2fsck_dir_info_get_parent and e2fsck_dir_info_get_dotdot: both fail for the same inodes. */
    method GetLinks(ino: nat) returns (found: bool, links: Links)
      requires Valid()
      ensures found <==> ino in Table(Contents())
      ensures found ==> links == Table(Contents())[ino]
    {
      var k := Get(ino);
      if k < 0 {
        return false, Links(0, 0);
      }
      TableAt(Contents(), k);
      return true, Links(dirs[k].dotdot, dirs[k].parent);
    }

    /** e2fsck_dir_info_set_parent. */
    method SetParent(ino: nat, parent: nat) returns (found: bool)
      requires Valid()
      modifies dirs
      ensures Valid() && (found <==> ino in old(Table(Contents())))
      ensures Table(Contents()) == if found
              then old(Table(Contents()))[ino := Links(old(Table(Contents()))[ino].dotdot, parent)]
                                   else old(Table(Contents()))
      ensures found ==> Contents() == Added(old(Contents()), Dir(ino, old(Table(Contents()))[ino].dotdot, parent))
      ensures !found ==> Contents() == old(Contents())
    {
      ghost var s := Contents();
      var k := Get(ino);
      found := k >= 0;
      if found {
        TableAt(s, k);
        ghost var d := Dir(ino, dirs[k].dotdot, parent);
        AddedHere(s, d, k);
        AddedSorted(s, d);
        AddedMeans(s, d);
        dirs[k] := dirs[k].(parent := parent);
        assert dirs[..count] == s[k := d];
      }
    }

    /** e2fsck_dir_info_set_dotdot. */
    method SetDotdot(ino: nat, dotdot: nat) returns (found: bool)
      requires Valid()
      modifies dirs
      ensures Valid() && (found <==> ino in old(Table(Contents())))
      ensures Table(Contents()) == if found
              then old(Table(Contents()))[ino := Links(dotdot, old(Table(Contents()))[ino].parent)]
                                   else old(Table(Contents()))
      ensures found ==> Contents() == Added(old(Contents()), Dir(ino, dotdot, old(Table(Contents()))[ino].parent))
      ensures !found ==> Contents() == old(Contents())
    {
      ghost var s := Contents();
      var k := Get(ino);
      found := k >= 0;
      if found {
        TableAt(s, k);
        ghost var d := Dir(ino, dotdot, dirs[k].parent);
        AddedHere(s, d, k);
        AddedSorted(s, d);
        AddedMeans(s, d);
        dirs[k] := dirs[k].(dotdot := dotdot);
        assert dirs[..count] == s[k := d];
      }
    }

    /** e2fsck_dir_info_iter: the entry at the iterator's index, which moves on. */
    method Iterate(i: nat) returns (k: int, i': nat)
      requires Valid()
      modifies this`lastLookup
      ensures Valid() && Contents() == old(Contents())
      ensures if i < |Contents()| then k == i && i' == i + 1 else k == -1 && i' == i
    {
      if i >= count {
        return -1, i;
      }
      lastLookup := i;
      return lastLookup, i + 1;
    }
  }
}

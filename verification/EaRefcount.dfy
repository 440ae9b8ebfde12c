/**
  The table of reference counts that pass 1 keeps for extended attribute blocks and inodes: an
  array sorted by key, with a cursor that makes sequential lookups cheap, entries left behind at
  count zero, and a compaction that runs only when the array is full.
 */
module EaRefcount {
  import opened Widths

  datatype El = El(key: nat, value: nat)

  // ---------------------------------------------------------------- what a table means

  ghost predicate Sorted(s: seq<El>)
  {
    forall i, j :: 0 <= i < j < |s| ==> s[i].key < s[j].key
  }

  /** The counts a list of entries stands for; a key that is not in the map counts zero. */
  ghost function Counts(s: seq<El>): map<nat, nat>
  {
    if s == [] then map[] else Set(Counts(s[..|s| - 1]), s[|s| - 1].key, s[|s| - 1].value)
  }

  function Get(m: map<nat, nat>, k: nat): nat
  {
    if k in m then m[k] else 0
  }

  function Set(m: map<nat, nat>, k: nat, v: nat): map<nat, nat>
  {
    if v == 0 then m - {k} else m[k := v]
  }

  function NonZero(s: seq<El>): (r: seq<El>)
    ensures |r| <= |s|
  {
    if s == [] then []
    else if s[|s| - 1].value != 0 then NonZero(s[..|s| - 1]) + [s[|s| - 1]]
    else NonZero(s[..|s| - 1])
  }

  lemma {:induction false} CountsAbsent(s: seq<El>, k: nat)
    requires forall i :: 0 <= i < |s| ==> s[i].key != k
    ensures k !in Counts(s)
  {
    if s != [] {
      CountsAbsent(s[..|s| - 1], k);
    }
  }

  lemma {:induction false} CountsAt(s: seq<El>, i: nat)
    requires Sorted(s) && i < |s|
    ensures Get(Counts(s), s[i].key) == s[i].value
    ensures s[i].value != 0 <==> s[i].key in Counts(s)
  {
    if i == |s| - 1 {
      CountsAbsent(s[..|s| - 1], s[i].key);
    } else {
      CountsAt(s[..|s| - 1], i);
    }
  }

  lemma {:induction false} CountsNonZero(s: seq<El>, k: nat)
    ensures k in Counts(s) ==> Counts(s)[k] != 0 && exists i :: 0 <= i < |s| && s[i].key == k
  {
    if s != [] {
      var front := s[..|s| - 1];
      CountsNonZero(front, k);
      if k in Counts(s) && s[|s| - 1].key != k {
        var i :| 0 <= i < |front| && front[i].key == k;
        assert s[i].key == k;
      }
    }
  }

  lemma {:induction false} SetsCommute(m: map<nat, nat>, k: nat, v: nat, k': nat, v': nat)
    requires k != k'
    ensures Set(Set(m, k, v), k', v') == Set(Set(m, k', v'), k, v)
  {
  }

  lemma {:induction false} CountsSnoc(s: seq<El>, e: El)
    ensures Counts(s + [e]) == Set(Counts(s), e.key, e.value)
  {
    assert (s + [e])[..|s|] == s;
  }

  lemma {:induction false} CountsUpdate(s: seq<El>, i: nat, v: nat)
    requires Sorted(s) && i < |s|
    ensures Sorted(s[i := s[i].(value := v)])
    ensures Counts(s[i := s[i].(value := v)]) == Set(Counts(s), s[i].key, v)
  {
    var t := s[i := s[i].(value := v)];
    var n := |s| - 1;
    if i == n {
      assert t[..n] == s[..n];
    } else {
      assert t[..n] == s[..n][i := s[i].(value := v)];
      CountsUpdate(s[..n], i, v);
      SetsCommute(Counts(s[..n]), s[i].key, v, s[n].key, s[n].value);
    }
  }

  ghost function Inserted(s: seq<El>, k: nat, pos: nat): seq<El>
    requires pos <= |s|
  {
    s[..pos] + [El(k, 0)] + s[pos..]
  }

  /** The slot `pos` is where key `k` belongs. */
  ghost predicate Belongs(s: seq<El>, k: nat, pos: nat)
  {
    && pos <= |s|
    && (forall i :: 0 <= i < pos ==> s[i].key < k)
    && (forall i :: pos <= i < |s| ==> k < s[i].key)
  }

  lemma {:induction false} InsertedSorted(s: seq<El>, k: nat, pos: nat)
    requires Sorted(s) && Belongs(s, k, pos)
    ensures Sorted(Inserted(s, k, pos))
  {
  }

  lemma {:induction false} CountsInserted(s: seq<El>, k: nat, pos: nat)
    requires Belongs(s, k, pos)
    ensures Counts(Inserted(s, k, pos)) == Counts(s)
  {
    var n := |s|;
    if pos == n {
      assert Inserted(s, k, pos) == s + [El(k, 0)];
      CountsSnoc(s, El(k, 0));
      CountsAbsent(s, k);
    } else {
      var front, last := s[..n - 1], s[n - 1];
      assert Inserted(s, k, pos) == Inserted(front, k, pos) + [last];
      CountsInserted(front, k, pos);
      CountsSnoc(Inserted(front, k, pos), last);
    }
  }

  lemma {:induction false} NonZeroMembers(s: seq<El>)
    ensures |NonZero(s)| <= |s|
    ensures forall e :: e in NonZero(s) <==> e in s && e.value != 0
  {
    if s != [] {
      NonZeroMembers(s[..|s| - 1]);
      assert s == s[..|s| - 1] + [s[|s| - 1]];
    }
  }

  lemma {:induction false} NonZeroSorted(s: seq<El>)
    requires Sorted(s)
    ensures Sorted(NonZero(s))
  {
    if s != [] {
      var front, last := s[..|s| - 1], s[|s| - 1];
      NonZeroSorted(front);
      NonZeroMembers(front);
      forall i | 0 <= i < |NonZero(front)| ensures NonZero(front)[i].key < last.key {
        assert NonZero(front)[i] in front;
      }
    }
  }

  lemma {:induction false} NonZeroCounts(s: seq<El>)
    requires Sorted(s)
    ensures Counts(NonZero(s)) == Counts(s)
  {
    if s != [] {
      var front, last := s[..|s| - 1], s[|s| - 1];
      NonZeroCounts(front);
      if last.value != 0 {
        CountsSnoc(NonZero(front), last);
      } else {
        CountsAbsent(front, last.key);
      }
    }
  }

  lemma {:induction false} NonZeroSplit(a: seq<El>, b: seq<El>)
    ensures NonZero(a + b) == NonZero(a) + NonZero(b)
  {
    if b == [] {
      assert a + b == a;
    } else {
      assert (a + b)[..|a + b| - 1] == a + b[..|b| - 1];
      NonZeroSplit(a, b[..|b| - 1]);
    }
  }

  lemma {:induction false} SameWhenFull(s: seq<El>)
    ensures |NonZero(s)| == |s| ==> NonZero(s) == s
  {
    if s != [] {
      NonZeroMembers(s[..|s| - 1]);
      SameWhenFull(s[..|s| - 1]);
    }
  }

  /** Walking the non-zero entries meets every counted key exactly once, in ascending order. */
  lemma {:induction false} IterationIsExact(s: seq<El>)
    requires Sorted(s)
    ensures Sorted(NonZero(s))
    ensures forall k :: k in Counts(s) <==> exists i :: 0 <= i < |NonZero(s)| && NonZero(s)[i].key == k
    ensures forall i :: 0 <= i < |NonZero(s)| ==>
              NonZero(s)[i].key in Counts(s) && Counts(s)[NonZero(s)[i].key] == NonZero(s)[i].value
  {
    NonZeroMembers(s);
    NonZeroSorted(s);
    NonZeroCounts(s);
    var z := NonZero(s);
    forall i | 0 <= i < |z| ensures z[i].key in Counts(s) && Counts(s)[z[i].key] == z[i].value {
      assert z[i] in s && z[i].value != 0;
      CountsAt(z, i);
    }
    forall k | k in Counts(s) ensures exists i :: 0 <= i < |z| && z[i].key == k {
      CountsNonZero(z, k);
    }
  }

  /** The same for one key: where the walk meets it, or that it never does. */
  lemma {:induction false} IterationMeets(s: seq<El>, k: nat) returns (i: nat)
    requires Sorted(s)
    ensures k in Counts(s) ==> i < |NonZero(s)| && NonZero(s)[i] == El(k, Counts(s)[k])
    ensures k !in Counts(s) ==> forall j :: 0 <= j < |NonZero(s)| ==> NonZero(s)[j].key != k
  {
    IterationIsExact(s);
    i := 0;
    if k in Counts(s) {
      i :| 0 <= i < |NonZero(s)| && NonZero(s)[i].key == k;
    }
  }

  lemma {:induction false} BelongsAtEnd(s: seq<El>, k: nat)
    requires Sorted(s) && (s == [] || k > s[|s| - 1].key)
    ensures Belongs(s, k, |s|)
  {
  }

  lemma {:induction false} NothingCounted(s: seq<El>)
    requires s == []
    ensures Counts(s) == map[]
  {
  }

  // ---------------------------------------------------------------- the table

  class Refcount {
    var list: array<El>
    var count: nat
    var cursor: nat

    ghost predicate Valid()
      reads this, list
    {
      count <= list.Length && Sorted(list[..count])
    }

    /** The total function from keys to counts that the table stands for. */
    ghost function Abs(): map<nat, nat>
      reads this, list
      requires Valid()
    {
      Counts(list[..count])
    }

    constructor (size: nat)
      ensures Valid() && fresh(list) && Abs() == map[] && cursor == 0
    {
      list := new El[if size == 0 then 500 else size](_ => El(0, 0));
      count := 0;
      cursor := 0;
    }

    /** refcount_collapse: squeeze out the zero entries, in place. */
    method Collapse()
      requires Valid()
      modifies this`count, list
      ensures Valid() && list[..count] == NonZero(old(list[..count]))
      ensures Abs() == old(Abs()) && count <= old(count)
    {
      hide Counts, Sorted;
      ghost var s := list[..count];
      var i, j := 0, 0;
      while i < count
        invariant 0 <= j <= i <= count <= list.Length && count == |s|
        invariant list[..j] == NonZero(s[..i])
        invariant list[i..count] == s[i..]
      {
        assert s[..i + 1][..i] == s[..i];
        assert list[i] == list[i..count][0] == s[i];
        ghost var rest := list[i..count];
        if list[i].value != 0 {
          if i != j {
            list[j] := list[i];
          }
          j := j + 1;
          assert list[..j] == NonZero(s[..i]) + [s[i]];
        }
        i := i + 1;
        assert list[i..count] == rest[1..];
      }
      assert s[..i] == s;
      count := j;
      NonZeroMembers(s);
      NonZeroSorted(s);
      NonZeroCounts(s);
    }

    /** insert_refcount_el: open a slot at `pos`, growing the array by 100 entries if it is full. */
    method InsertEl(k: nat, pos: nat)
      requires Valid() && Belongs(list[..count], k, pos)
      modifies this, list
      ensures Valid() && (list == old(list) || fresh(list))
      ensures count == old(count) + 1 && pos < count && list[pos].key == k
      ensures Abs() == old(Abs())
      ensures if old(count < list.Length) then list == old(list) else list.Length == old(list.Length) + 100
    {
      hide Sorted, Counts;
      ghost var s := list[..count];
      InsertedSorted(s, k, pos);
      CountsInserted(s, k, pos);
      Grow();
      OpenSlot(k, pos);
      count := count + 1;
    }

    /** Make room for one more entry. */
    method Grow()
      requires count <= list.Length
      modifies this`list
      ensures count < list.Length && list[..count] == old(list[..count]) && (list == old(list) || fresh(list))
      ensures if old(count < list.Length) then list == old(list) else list.Length == old(list.Length) + 100
    {
      if count >= list.Length {
        var bigger := new El[list.Length + 100](_ => El(0, 0));
        forall i | 0 <= i < count { bigger[i] := list[i]; }
        list := bigger;
      }
    }

    /** Move the entries from `pos` on up by one, and put an empty one there. */
    method OpenSlot(k: nat, pos: nat)
      requires pos <= count < list.Length
      modifies list
      ensures list[..count + 1] == Inserted(old(list[..count]), k, pos)
    {
      ghost var s := list[..count];
      forall i | pos <= i < count { list[i + 1] := list[i]; }
      list[pos] := El(k, 0);
      forall i | 0 <= i <= count ensures list[i] == Inserted(s, k, pos)[i] {
      }
    }

    /** The binary search of get_refcount_el. */
    method Search(k: nat) returns (found: bool, at: nat)
      requires Valid()
      ensures found ==> at < count && list[at].key == k
      ensures !found ==> Belongs(list[..count], k, at)
    {
      var low: int, high: int := 0, count - 1;
      while low <= high
        invariant 0 <= low <= high + 1 <= count
        invariant forall i :: 0 <= i < low ==> list[..count][i].key < k
        invariant forall i :: high < i < count ==> k < list[..count][i].key
      {
        var mid := (low + high) / 2;
        ghost var s := list[..count];
        assert s[mid] == list[mid];
        if k == list[mid].key {
          return true, mid;
        }
        if k < list[mid].key {
          high := mid - 1;
        } else {
          low := mid + 1;
        }
      }
      return false, low;
    }

    /** The cursor, and failing that the search. */
    method Find(k: nat) returns (found: bool, at: nat)
      requires Valid() && count > 0
      modifies this`cursor
      ensures found ==> at < count && list[at].key == k
      ensures !found ==> Belongs(list[..count], k, at) && k !in Abs()
    {
      if cursor >= count {
        cursor := 0;
      }
      if k == list[cursor].key {
        cursor := cursor + 1;
        return true, cursor - 1;
      }
      found, at := Search(k);
      if found {
        cursor := at + 1;
      } else {
        CountsAbsent(list[..count], k);
      }
    }

    /** A key beyond the last one: make room if the array is full, then append. */
    method AppendEl(k: nat)
      requires Valid() && Belongs(list[..count], k, count)
      modifies this, list
      ensures Valid() && (list == old(list) || fresh(list))
      ensures count > 0 && list[count - 1].key == k
      ensures Abs() == old(Abs())
      ensures list != old(list) <==> |NonZero(old(list[..count]))| == old(list.Length)
      ensures list != old(list) ==> list.Length == old(list.Length) + 100
    {
      hide Counts, NonZero;
      ghost var s := list[..count];
      if count >= list.Length {
        Collapse();
        NonZeroMembers(s);
        forall i | 0 <= i < count ensures list[..count][i].key < k {
          assert list[..count][i] in s;
        }
      }
      InsertEl(k, count);
    }

    /** get_refcount_el.  Whether the answer comes from the cursor, from the search or from a
        new slot, it is the entry of `k`, and no count changes; after a collapse the search is
        repeated, once. */
    method GetEl(k: nat, create: bool) returns (found: bool, at: nat)
      requires Valid()
      modifies this, list
      ensures Valid() && (list == old(list) || fresh(list))
      ensures Abs() == old(Abs())
      ensures create ==> found
      ensures found ==> at < count && list[at].key == k
      ensures !found ==> k !in Abs()
      ensures !create ==> list == old(list) && list[..] == old(list[..]) && count == old(count)
      ensures list != old(list) ==>
                |NonZero(old(list[..count]))| == old(list.Length) && list.Length == old(list.Length) + 100
    {
      hide Counts, Sorted;
      var retried := false;
      while true
        invariant Valid() && list == old(list) && Abs() == old(Abs())
        invariant retried ==> create && count < list.Length
        invariant !retried ==> list[..] == old(list[..]) && count == old(count)
        decreases !retried
      {
        if create && (count == 0 || k > list[count - 1].key) {
          BelongsAtEnd(list[..count], k);
          AppendEl(k);
          return true, count - 1;
        }
        if count == 0 {
          NothingCounted(list[..count]);
          return false, 0;
        }
        found, at := Find(k);
        if found || !create {
          return;
        }
        if count >= list.Length {
          ghost var s := list[..count];
          Collapse();
          if count < list.Length {
            retried := true;
            continue;
          }
          SameWhenFull(s);
        }
        InsertEl(k, at);
        return true, at;
      }
    }

    method SetAt(at: nat, v: nat)
      requires Valid() && at < count
      modifies list
      ensures Valid() && Abs() == Set(old(Abs()), old(list[at].key), v)
    {
      ghost var s := list[..count];
      CountsUpdate(s, at, v);
      list[at] := list[at].(value := v);
      assert list[..count] == s[at := s[at].(value := v)];
    }

    method ValueAt(at: nat, k: nat) returns (v: nat)
      requires Valid() && at < count && list[at].key == k
      ensures v == Get(Abs(), k)
    {
      CountsAt(list[..count], at);
      v := list[at].value;
    }

    method Fetch(k: nat) returns (v: nat)
      requires Valid()
      modifies this, list
      ensures Valid() && list == old(list) && Abs() == old(Abs())
      ensures v == Get(Abs(), k)
    {
      var found, at := GetEl(k, false);
      if !found {
        return 0;
      }
      v := ValueAt(at, k);
    }

    method Increment(k: nat) returns (v: nat)
      requires Valid()
      modifies this, list
      ensures Valid() && (list == old(list) || fresh(list))
      ensures v == (Get(old(Abs()), k) + 1) % U64
      ensures Abs() == Set(old(Abs()), k, v)
    {
      var found, at := GetEl(k, true);
      v := ValueAt(at, k);
      v := (v + 1) % U64;
      SetAt(at, v);
    }

    /** Refused, with nothing changed, exactly when the count is zero. */
    method Decrement(k: nat) returns (ok: bool)
      requires Valid()
      modifies this, list
      ensures Valid() && list == old(list)
      ensures ok <==> Get(old(Abs()), k) != 0
      ensures Abs() == if ok then Set(old(Abs()), k, old(Abs())[k] - 1) else old(Abs())
    {
      var found, at := GetEl(k, false);
      if !found {
        return false;
      }
      var v := ValueAt(at, k);
      if v == 0 {
        return false;
      }
      SetAt(at, v - 1);
      return true;
    }

    method Store(k: nat, v: nat)
      requires Valid()
      modifies this, list
      ensures Valid() && (list == old(list) || fresh(list))
      ensures Abs() == Set(old(Abs()), k, v)
    {
      var found, at := GetEl(k, v != 0);
      if found {
        SetAt(at, v);
      }
    }

    // The iteration shares the cursor with the lookups.

    /** The entries an iteration has still to yield. */
    ghost function Remaining(): seq<El>
      reads this, list
      requires Valid()
    {
      if cursor >= count then [] else NonZero(list[cursor..count])
    }

    method IntrBegin()
      requires Valid()
      modifies this`cursor
      ensures Valid() && Remaining() == NonZero(list[..count])
    {
      cursor := 0;
      assert list[0..count] == list[..count];
    }

    /** The next entry with a non-zero count, or key 0 when there is none left. */
    method IntrNext() returns (key: nat, value: nat)
      requires Valid()
      modifies this`cursor
      ensures Valid()
      ensures if old(Remaining()) == [] then key == 0 && Remaining() == []
              else El(key, value) == old(Remaining())[0] && Remaining() == old(Remaining())[1..]
    {
      ghost var all := Remaining();
      while true
        invariant Remaining() == all
        decreases count - cursor
      {
        if cursor >= count {
          return 0, 0;
        }
        ghost var rest := list[cursor..count];
        assert rest == [list[cursor]] + list[cursor + 1..count];
        NonZeroSplit([list[cursor]], list[cursor + 1..count]);
        if list[cursor].value != 0 {
          key, value := list[cursor].key, list[cursor].value;
          assert NonZero([list[cursor]]) == [list[cursor]];
          cursor := cursor + 1;
          return;
        }
        assert NonZero([list[cursor]]) == [];
        cursor := cursor + 1;
      }
    }
  }
}

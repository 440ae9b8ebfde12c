/**
  The directory list of fsstress and the little cache that finds a directory's slot by its id.
 */
module Dcache {

  const CELLS: nat := 64   // NDCACHE

  datatype Fent = Fent(id: nat, parent: int)

  /** The first slot that holds the id, as a plain scan finds it, or -1. */
  function Scan(fents: seq<Fent>, id: nat): (slot: int)
    ensures -1 <= slot < |fents|
    ensures slot >= 0 ==> fents[slot].id == id && forall k :: 0 <= k < slot ==> fents[k].id != id
    ensures slot < 0 ==> forall k :: 0 <= k < |fents| ==> fents[k].id != id
  {
    if fents == [] then -1
    else
      var before := Scan(fents[..|fents| - 1], id);
      if before >= 0 then before else if fents[|fents| - 1].id == id then |fents| - 1 else -1
  }

  ghost predicate Distinct(fents: seq<Fent>)
  {
    forall i, j :: 0 <= i < j < |fents| ==> fents[i].id != fents[j].id
  }

  /** The list without the entry at `slot`: the last entry takes its place. */
  function Removed(fents: seq<Fent>, slot: nat): seq<Fent>
    requires slot < |fents|
  {
    fents[slot := fents[|fents| - 1]][..|fents| - 1]
  }

  lemma {:induction false} LastForMiddle(a: seq<Fent>, x: Fent, b: seq<Fent>, y: Fent)
    ensures multiset(a + [y] + b) == multiset(a + [x] + b + [y]) - multiset{x}
  {
  }

  /** Nothing else is lost by a removal. */
  lemma {:induction false} RemovedMeans(fents: seq<Fent>, slot: nat)
    requires slot < |fents|
    ensures multiset(Removed(fents, slot)) == multiset(fents) - multiset{fents[slot]}
  {
    hide Removed;
    var n := |fents| - 1;
    RemovedShape(fents, slot);
    if slot != n {
      LastForMiddle(fents[..slot], fents[slot], fents[slot + 1..n], fents[n]);
    }
  }

  lemma {:induction false} RemovedShape(fents: seq<Fent>, slot: nat)
    requires slot < |fents|
    ensures var n, r := |fents| - 1, Removed(fents, slot);
            if slot == n then fents == r + [fents[n]]
            else
              && fents == fents[..slot] + [fents[slot]] + fents[slot + 1..n] + [fents[n]]
              && r == fents[..slot] + [fents[n]] + fents[slot + 1..n]
  {
  }

  lemma {:induction false} RemovedDistinct(fents: seq<Fent>, slot: nat)
    requires slot < |fents| && Distinct(fents)
    ensures Distinct(Removed(fents, slot))
  {
  }

  /** A cell that is in use holds a slot of the list whose id belongs in that cell. */
  predicate CellFits(fents: seq<Fent>, slot: int, cell: nat)
  {
    slot == -1 || (0 <= slot < |fents| && fents[slot].id % CELLS == cell)
  }

  /** The directories, and the cache over them. */
  class DirList {
    var fents: seq<Fent>
    const dcache: array<int>

    ghost predicate Valid()
      reads this, dcache
    {
      dcache.Length == CELLS && forall cell :: 0 <= cell < CELLS ==> CellFits(fents, dcache[cell], cell)
    }

    /** dcache_init, over an empty list. */
    constructor ()
      ensures Valid() && fresh(dcache) && fents == []
    {
      fents := [];
      dcache := new int[CELLS](_ => -1);
    }

    /** add_to_flist: slots are not disturbed. */
    method Add(id: nat, parent: int)
      requires Valid()
      modifies this
      ensures Valid() && fents == old(fents) + [Fent(id, parent)]
    {
      fents := fents + [Fent(id, parent)];
    }

    /** dcache_lookup */
    method Lookup(id: nat) returns (slot: int)
      requires Valid()
      ensures slot == -1 || (0 <= slot < |fents| && fents[slot].id == id && dcache[id % CELLS] == slot)
      ensures slot == -1 ==> dcache[id % CELLS] == -1 || fents[dcache[id % CELLS]].id != id
    {
      slot := dcache[id % CELLS];
      assert CellFits(fents, slot, id % CELLS);
      if slot >= 0 && fents[slot].id != id {
        slot := -1;
      }
    }

    /** dcache_enter */
    method Enter(id: nat, slot: nat)
      requires Valid() && slot < |fents| && fents[slot].id == id
      modifies dcache
      ensures Valid() && dcache[id % CELLS] == slot
    {
      dcache[id % CELLS] := slot;
    }

    /** dcache_purge: afterwards no cell holds a slot with this id. */
    method Purge(id: nat)
      requires Valid()
      modifies dcache
      ensures Valid()
      ensures forall cell :: 0 <= cell < CELLS && dcache[cell] >= 0 ==> fents[dcache[cell]].id != id
      ensures forall cell :: 0 <= cell < CELLS ==> dcache[cell] == -1 || dcache[cell] == old(dcache[cell])
    {
      var cell := id % CELLS;
      assert CellFits(fents, dcache[cell], cell);
      if dcache[cell] >= 0 && fents[dcache[cell]].id == id {
        dcache[cell] := -1;
      }
      forall x | 0 <= x < CELLS && dcache[x] >= 0 ensures fents[dcache[x]].id != id {
        assert CellFits(fents, dcache[x], x);
      }
    }

    /** del_from_flist: the slots of the entry that goes and of the one that moves are forgotten. */
    method Delete(slot: nat)
      requires Valid() && slot < |fents|
      modifies this, dcache
      ensures Valid() && fents == Removed(old(fents), slot)
    {
      var last := |fents| - 1;
      Purge(fents[slot].id);
      if slot != last {
        Purge(fents[last].id);
      }
      ghost var was := fents;
      fents := fents[slot := fents[last]][..last];
      forall cell | 0 <= cell < CELLS ensures CellFits(fents, dcache[cell], cell) {
        assert CellFits(was, dcache[cell], cell);
      }
    }

    /** dirid_to_fent: through the cache or by a scan, the slot is one that holds the id; and since
        ids are distinct, the very one that a scan would find. */
    method Find(id: nat) returns (slot: int)
      requires Valid()
      modifies dcache
      ensures Valid() && (slot >= 0 <==> Scan(fents, id) >= 0) && -1 <= slot < |fents|
      ensures slot >= 0 ==> fents[slot].id == id && dcache[id % CELLS] == slot
      ensures slot < 0 ==> dcache[..] == old(dcache[..])
      ensures Distinct(fents) ==> slot == Scan(fents, id)
    {
      slot := Lookup(id);
      if slot >= 0 {
        return;
      }
      for i := 0 to |fents|
        invariant forall k :: 0 <= k < i ==> fents[k].id != id
      {
        if fents[i].id == id {
          Enter(id, i);
          return i;
        }
      }
      return -1;
    }
  }

  // ---------------------------------------------------------------- whole runs

  /** What fsstress does with directories: make one, under the next id; remove one; look one up. */
  datatype Op = Make(parent: int) | Remove(slot: nat) | Seek(id: nat)

  /** The list and the next id, without any cache. */
  datatype Plain = Plain(fents: seq<Fent>, nameseq: nat)

  function Do(p: Plain, op: Op): Plain
  {
    match op
    case Make(parent) => Plain(p.fents + [Fent(p.nameseq, parent)], p.nameseq + 1)
    case Remove(slot) => if slot < |p.fents| then p.(fents := Removed(p.fents, slot)) else p
    case Seek(_) => p
  }

  function DoAll(ops: seq<Op>): Plain
  {
    if ops == [] then Plain([], 0) else Do(DoAll(ops[..|ops| - 1]), ops[|ops| - 1])
  }

  /** What the operation answers: the slot that a plain scan finds. */
  function Answer(p: Plain, op: Op): int
  {
    if op.Seek? then Scan(p.fents, op.id) else -1
  }

  /** Ids are distinct, and the next one is new. */
  ghost predicate Fresh(p: Plain)
  {
    Distinct(p.fents) && forall k :: 0 <= k < |p.fents| ==> p.fents[k].id < p.nameseq
  }

  lemma {:induction false} StaysFresh(p: Plain, op: Op)
    requires Fresh(p)
    ensures Fresh(Do(p, op))
  {
    if op.Remove? && op.slot < |p.fents| {
      RemovedDistinct(p.fents, op.slot);
    }
  }

  lemma {:induction false} AlwaysFresh(ops: seq<Op>)
    ensures Fresh(DoAll(ops))
  {
    if ops != [] {
      AlwaysFresh(ops[..|ops| - 1]);
      StaysFresh(DoAll(ops[..|ops| - 1]), ops[|ops| - 1]);
    }
  }

  method Step(d: DirList, nameseq: nat, op: Op) returns (nameseq': nat, slot: int)
    requires d.Valid() && Fresh(Plain(d.fents, nameseq))
    modifies d, d.dcache
    ensures d.Valid() && Plain(d.fents, nameseq') == Do(Plain(old(d.fents), nameseq), op)
    ensures slot == Answer(Plain(old(d.fents), nameseq), op)
  {
    hide Scan, Removed;
    nameseq', slot := nameseq, -1;
    match op {
      case Make(parent) =>
        d.Add(nameseq, parent);
        nameseq' := nameseq + 1;
      case Remove(s) =>
        if s < |d.fents| {
          d.Delete(s);
        }
      case Seek(id) =>
        slot := d.Find(id);
    }
  }

  /** Over any run from an empty list the cached lookups answer exactly what plain scans would. */
  method Run(ops: seq<Op>) returns (answers: seq<int>)
    ensures |answers| == |ops| && forall i :: 0 <= i < |ops| ==> answers[i] == Answer(DoAll(ops[..i]), ops[i])
  {
    hide Answer, Do, Fresh;
    var d := new DirList();
    var nameseq := 0;
    answers := [];
    for n := 0 to |ops|
      invariant d.Valid() && fresh(d) && fresh(d.dcache) && Plain(d.fents, nameseq) == DoAll(ops[..n]) && |answers| == n
      invariant forall i :: 0 <= i < n ==> answers[i] == Answer(DoAll(ops[..i]), ops[i])
    {
      assert ops[..n + 1][..n] == ops[..n];
      AlwaysFresh(ops[..n]);
      var slot;
      nameseq, slot := Step(d, nameseq, ops[n]);
      answers := answers + [slot];
    }
  }
}

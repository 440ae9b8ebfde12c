/**
  Pass 3: from every directory the parents are followed upwards until one is met that was dealt
  with before, and directories without a parent are offered a place in lost+found.
 */
module Pass3 {
  import opened Bits
  import opened DirInfo

  const ROOT: nat := 2           // EXT2_ROOT_INO
  const PATIENCE: nat := 2048    // parents followed before loop detection is switched on

  type Tree = map<nat, Links>

  // ---------------------------------------------------------------- what the pass keeps

  /** Of a directory that has not been dealt with, the table says what it said at the start. */
  ghost predicate Untouched(start: Tree, now: Tree, done: set<nat>)
  {
    && (forall ino :: ino in start ==> ino in now && (ino in done || now[ino].parent == start[ino].parent))
    && (forall ino :: ino in now && ino !in start ==> ino in done || now[ino].parent != 0)
  }

  /** Of the directories dealt with, exactly those that had no parent were offered. */
  ghost predicate Settled(start: Tree, done: set<nat>, offered: seq<nat>)
  {
    && Distinct(offered)
    && (forall ino :: ino in offered ==> ino in done && ino in start && ino != ROOT && start[ino].parent == 0)
    && (forall ino :: ino in done && ino in start && ino != ROOT && start[ino].parent == 0 ==> ino in offered)
  }

  lemma {:induction false} MarkOther(start: Tree, now: Tree, done: set<nat>, offered: seq<nat>, ino: nat)
    requires Settled(start, done, offered) && Untouched(start, now, done) && ino !in done
    requires ino !in now || now[ino].parent != 0
    ensures Settled(start, done + {ino}, offered) && Untouched(start, now, done + {ino})
  {
  }

  lemma {:induction false} NotOffered(start: Tree, done: set<nat>, offered: seq<nat>, ino: nat)
    requires Settled(start, done, offered) && ino !in done
    ensures ino !in offered
  {
  }

  lemma {:induction false} MarkOrphan(start: Tree, now: Tree, done: set<nat>, offered: seq<nat>, ino: nat)
    requires Settled(start, done, offered) && Untouched(start, now, done) && ino !in done
    requires ino in now && now[ino].parent == 0 && ROOT in done
    ensures Settled(start, done + {ino}, offered + [ino]) && Untouched(start, now, done + {ino}) && ino in start
  {
  }

  /** What happens to the table while a directory is dealt with: lost+found may be created, and
      entries of directories that are done may change. */
  ghost predicate Mended(s: seq<Dir>, s': seq<Dir>, done: set<nat>)
  {
    && Sorted(s') && |s| <= |s'|
    && (forall ino :: ino in Table(s) ==> ino in Table(s') && (ino in done || Table(s')[ino] == Table(s)[ino]))
    && (forall ino :: ino in Table(s') && ino !in Table(s) ==> ino in done || Table(s')[ino].parent != 0)
    && (forall i, ino :: Ahead(s, i, ino) ==> Ahead(s', i, ino))
  }

  lemma {:induction false} MendedSelf(s: seq<Dir>, done: set<nat>)
    requires Sorted(s)
    ensures Mended(s, s, done)
  {
  }

  lemma {:induction false} MendedJoin(a: seq<Dir>, b: seq<Dir>, c: seq<Dir>, done: set<nat>, done': set<nat>)
    requires Mended(a, b, done) && Mended(b, c, done') && done <= done'
    ensures Mended(a, c, done')
  {
    hide Table, Ahead, Sorted;
  }

  /** lost+found is created. */
  lemma {:induction false} MendedNew(s: seq<Dir>, n: nat, done: set<nat>)
    requires Sorted(s) && n !in Table(s)
    ensures Mended(s, Added(s, Dir(n, ROOT, ROOT)), done)
  {
    var d := Dir(n, ROOT, ROOT);
    var t := Added(s, d);
    AddedSorted(s, d);
    AddedMeans(s, d);
    forall i: nat, ino: nat | Ahead(s, i, ino) ensures Ahead(t, i, ino) {
      AddMissesNone(s, d, i, {ino}, {});
    }
  }

  /** The entry of a directory that is done is changed. */
  lemma {:induction false} MendedEntry(s: seq<Dir>, d: Dir, done: set<nat>)
    requires Sorted(s) && d.ino in Table(s) && d.ino in done
    ensures Mended(s, Added(s, d), done)
  {
    AddedSorted(s, d);
    AddedMeans(s, d);
    forall i: nat, ino: nat | Ahead(s, i, ino) ensures Ahead(Added(s, d), i, ino) {
      AddMissesNone(s, d, i, {ino}, {});
    }
  }

  lemma {:induction false} StillUntouched(start: Tree, s: seq<Dir>, s': seq<Dir>, done: set<nat>)
    requires Untouched(start, Table(s), done) && Mended(s, s', done)
    ensures Untouched(start, Table(s'), done)
  {
    hide Table, Ahead, Sorted;
  }

  lemma {:induction false} StillThere(s: seq<Dir>, s': seq<Dir>, done: set<nat>, ino: nat)
    requires Mended(s, s', done) && ino in Table(s)
    ensures ino in Table(s')
  {
  }

  lemma {:induction false} StartStays(start: Tree, now: Tree, done: set<nat>)
    requires Untouched(start, now, done)
    ensures forall ino :: ino in start ==> ino in now
  {
  }

  // ---------------------------------------------------------------- what the table says

  /** A '..' that was repaired, and what was known as lost+found at that time. */
  datatype Repair = Repair(ino: nat, lostAndFound: nat)

  /** What repairs make of the links of a directory: each puts the parent into '..', and lost+found in
      the place of the parent. */
  function Repaired(l: Links, ino: nat, rs: seq<Repair>): Links
  {
    if rs == [] then l
    else
      var m, r := Repaired(l, ino, rs[..|rs| - 1]), rs[|rs| - 1];
      if r.ino == ino then Links(m.parent, r.lostAndFound) else m
  }

  function DirsOf(rs: seq<Repair>): (ds: seq<nat>)
    ensures |ds| == |rs| && forall i :: 0 <= i < |rs| ==> ds[i] == rs[i].ino
  {
    seq(|rs|, i requires 0 <= i < |rs| => rs[i].ino)
  }

  lemma {:induction false} DirsOfSnoc(rs: seq<Repair>, r: Repair)
    ensures DirsOf(rs + [r]) == DirsOf(rs) + [r.ino]
  {
  }

  lemma {:induction false} NotRepaired(l: Links, ino: nat, rs: seq<Repair>)
    requires ino !in DirsOf(rs)
    ensures Repaired(l, ino, rs) == l
    decreases |rs|
  {
    if rs != [] {
      var front := rs[..|rs| - 1];
      assert DirsOf(rs) == DirsOf(front) + [rs[|rs| - 1].ino];
      assert rs[|rs| - 1].ino in DirsOf(rs);
      NotRepaired(l, ino, front);
    }
  }

  /** After one repair '..' is the former parent. */
  lemma {:induction false} RepairedOnce(l: Links, ino: nat, rs: seq<Repair>)
    requires Distinct(DirsOf(rs)) && ino in DirsOf(rs)
    ensures Repaired(l, ino, rs).dotdot == l.parent && Repair(ino, Repaired(l, ino, rs).parent) in rs
    decreases |rs|
  {
    var front, r := rs[..|rs| - 1], rs[|rs| - 1];
    assert DirsOf(rs) == DirsOf(front) + [r.ino];
    assert Distinct(DirsOf(front)) by {
      forall i, j | 0 <= i < j < |front| ensures DirsOf(front)[i] != DirsOf(front)[j] {
        assert DirsOf(rs)[i] != DirsOf(rs)[j];
      }
    }
    if r.ino == ino {
      assert ino !in DirsOf(front) by {
        forall i | 0 <= i < |front| ensures DirsOf(front)[i] != ino {
          assert DirsOf(rs)[i] != DirsOf(rs)[|front|];
        }
      }
      NotRepaired(l, ino, front);
    } else {
      RepairedOnce(l, ino, front);
    }
  }

  /** After two repairs it is what was known as lost+found at the first. */
  lemma {:induction false} RepairedTwice(l: Links, ino: nat, a: nat, b: nat)
    ensures Repaired(l, ino, [Repair(ino, a), Repair(ino, b)]) == Links(a, b)
  {
    var rs := [Repair(ino, a), Repair(ino, b)];
    assert rs[..1] == [Repair(ino, a)] && rs[..1][..0] == [];
    assert Repaired(l, ino, rs[..1]) == Links(l.parent, a);
  }

  /** The links that the table has for a directory during the pass. */
  ghost function Expected(start: Tree, reconnected: set<nat>, rs: seq<Repair>, lostAndFound: nat, ino: nat): Links
  {
    if ino in reconnected then Links(lostAndFound, lostAndFound)
    else if ino in start then Repaired(start[ino], ino, rs)
    else Links(ROOT, ROOT)
  }

  ghost predicate Entered(start: Tree, now: Tree, reconnected: set<nat>, rs: seq<Repair>, lostAndFound: nat)
  {
    && (forall ino :: ino in now ==> now[ino] == Expected(start, reconnected, rs, lostAndFound, ino))
    && start.Keys <= now.Keys && (forall ino :: ino in reconnected ==> ino in start)
    && (now.Keys == start.Keys
        || (lostAndFound != 0 && lostAndFound !in start && now.Keys == start.Keys + {lostAndFound}))
  }

  lemma {:induction false} KeysAtStart(start: Tree, now: Tree, reconnected: set<nat>, rs: seq<Repair>,
                                       lostAndFound: nat)
    requires Entered(start, now, reconnected, rs, lostAndFound)
    ensures start.Keys <= now.Keys && (lostAndFound == 0 ==> now.Keys == start.Keys)
  {
  }

  /** lost+found becomes known, and may have been made. */
  lemma {:induction false} EnteredFound(start: Tree, now: Tree, now': Tree, rs: seq<Repair>, lostAndFound: nat)
    requires Entered(start, now, {}, rs, 0)
    requires Made(now, now', lostAndFound)
    ensures Entered(start, now', {}, rs, lostAndFound)
  {
    forall ino | ino in now' ensures now'[ino] == Expected(start, {}, rs, lostAndFound, ino) {
      if ino in now {
        assert now[ino] == Expected(start, {}, rs, 0, ino);
      }
    }
  }

  /** What is known as lost+found is the directory that the root names, or one of the table, or none. */
  ghost predicate Located(now: Tree, lostAndFound: nat, entry: nat)
  {
    lostAndFound == 0 || lostAndFound == ROOT || lostAndFound == entry || lostAndFound in now
  }

  /** Nothing has changed in the table, or lost+found was added to it. */
  ghost predicate Made(t: Tree, t': Tree, lostAndFound: nat)
  {
    t' == t || (lostAndFound != 0 && lostAndFound !in t && t' == t[lostAndFound := Links(ROOT, ROOT)])
  }

  lemma {:induction false} EnteredReconnected(start: Tree, now: Tree, reconnected: set<nat>, rs: seq<Repair>,
                                              lostAndFound: nat, ino: nat)
    requires Entered(start, now, reconnected, rs, lostAndFound) && ino in start
    ensures Entered(start, now[ino := Links(lostAndFound, lostAndFound)], reconnected + {ino}, rs, lostAndFound)
  {
    var now' := now[ino := Links(lostAndFound, lostAndFound)];
    forall x | x in now' ensures now'[x] == Expected(start, reconnected + {ino}, rs, lostAndFound, x) {
      if x != ino {
        assert now[x] == Expected(start, reconnected, rs, lostAndFound, x);
      }
    }
    assert now'.Keys == now.Keys;
  }

  lemma {:induction false} EnteredRepaired(start: Tree, now: Tree, reconnected: set<nat>, rs: seq<Repair>,
                                           lostAndFound: nat, ino: nat)
    requires Entered(start, now, reconnected, rs, lostAndFound) && ino in now && now[ino].dotdot != now[ino].parent
    ensures Entered(start, now[ino := Links(now[ino].parent, lostAndFound)], reconnected,
                    rs + [Repair(ino, lostAndFound)], lostAndFound)
  {
    var now', rs' := now[ino := Links(now[ino].parent, lostAndFound)], rs + [Repair(ino, lostAndFound)];
    assert rs'[..|rs|] == rs;
    forall x | x in now' ensures now'[x] == Expected(start, reconnected, rs', lostAndFound, x) {
      assert now[x] == Expected(start, reconnected, rs, lostAndFound, x);
    }
    assert now'.Keys == now.Keys;
  }

  // ---------------------------------------------------------------- questions and answers

  /** What is found on looking for lost+found: whether the directory that the root names can be used,
      whether one is to be made, whether there is room for it, and the inode that would be taken. */
  datatype Site = Site(usable: bool, make: bool, room: bool, spare: nat)

  /** The answers: whether to reconnect a directory, whether linking it into lost+found succeeds, and
      whether to repair the '..' of question number `k`; and what is found on looking for lost+found
      when it is first needed and at the end. */
  datatype Answers = Answers(take: nat -> bool, fit: nat -> bool, mend: nat -> bool, site: Site, atEnd: Site)

  /** The directory that serves as lost+found, 0 if none does. */
  function Found(entry: nat, site: Site, taken: set<nat>): nat
  {
    if entry != 0 && site.usable then entry
    else if site.make && site.room && site.spare != 0 && site.spare !in taken then site.spare
    else 0
  }

  /** What is then recorded as lost+found: the root, where there is no room for a new one. */
  function Noted(entry: nat, site: Site, taken: set<nat>): nat
  {
    if Found(entry, site, taken) == 0 && !(entry != 0 && site.usable) && site.make && !site.room then ROOT
    else Found(entry, site, taken)
  }

  /** Some directory was to be reconnected. */
  ghost predicate Tried(offered: seq<nat>, a: Answers)
  {
    exists ino :: ino in offered && a.take(ino)
  }

  lemma {:induction false} TriedSnoc(offered: seq<nat>, a: Answers, ino: nat)
    ensures Tried(offered + [ino], a) <==> Tried(offered, a) || a.take(ino)
  {
    if a.take(ino) {
      assert ino in offered + [ino];
    }
    if x :| x in offered && a.take(x) {
      assert x in offered + [ino];
    }
  }

  /** Of the directories offered, exactly those are reconnected for which the answer was yes and the
      linking succeeded, provided there is a lost+found. */
  ghost predicate Answered(start: Tree, offered: seq<nat>, reconnected: set<nat>, lostAndFound: nat, bad: bool,
                           entry: nat, a: Answers)
  {
    var home := Found(entry, a.site, start.Keys);
    && (forall ino :: ino in reconnected <==> ino in offered && a.take(ino) && a.fit(ino) && home != 0)
    && bad == (Tried(offered, a) && home == 0)
    && lostAndFound == if Tried(offered, a) then Noted(entry, a.site, start.Keys) else 0
  }

  lemma {:induction false} HomeIsNoted(entry: nat, site: Site, taken: set<nat>)
    ensures Found(entry, site, taken) != 0 ==> Noted(entry, site, taken) == Found(entry, site, taken)
  {
  }

  lemma {:induction false} Declined(start: Tree, offered: seq<nat>, reconnected: set<nat>, lostAndFound: nat,
                                    bad: bool, entry: nat, a: Answers, ino: nat)
    requires Answered(start, offered, reconnected, lostAndFound, bad, entry, a) && ino !in offered && !a.take(ino)
    ensures Answered(start, offered + [ino], reconnected, lostAndFound, bad, entry, a)
  {
    hide Found, Noted, Tried;
    TriedSnoc(offered, a, ino);
  }

  lemma {:induction false} Accepted(start: Tree, offered: seq<nat>, reconnected: set<nat>, lostAndFound: nat,
                                    bad: bool, lostAndFound': nat, bad': bool, entry: nat, a: Answers, ino: nat)
    requires Answered(start, offered, reconnected, lostAndFound, bad, entry, a) && ino !in offered && a.take(ino)
    requires var home := Found(entry, a.site, start.Keys);
             if lostAndFound != 0 || bad then lostAndFound' == lostAndFound && bad' == bad
             else bad' == (home == 0) && lostAndFound' == Noted(entry, a.site, start.Keys)
    ensures Answered(start, offered + [ino], if bad' || !a.fit(ino) then reconnected else reconnected + {ino},
                     lostAndFound', bad', entry, a)
  {
    hide Found, Noted, Tried;
    HomeIsNoted(entry, a.site, start.Keys);
    TriedSnoc(offered, a, ino);
  }

  /** '..' is not what pass 2 found to be the parent. */
  predicate Odd(t: Tree, ino: nat)
  {
    ino in t && t[ino].dotdot != t[ino].parent
  }

  /** The directories for which the question about '..' was answered with yes. */
  function Agreed(asked: seq<nat>, mend: nat -> bool): seq<nat>
  {
    if asked == [] then []
    else
      var n := |asked| - 1;
      Agreed(asked[..n], mend) + if mend(n) then [asked[n]] else []
  }

  lemma {:induction false} AgreedSnoc(asked: seq<nat>, mend: nat -> bool, ino: nat)
    ensures Agreed(asked + [ino], mend) == Agreed(asked, mend) + if mend(|asked|) then [ino] else []
  {
    assert (asked + [ino])[..|asked|] == asked;
  }

  lemma {:induction false} AgreedAsked(asked: seq<nat>, mend: nat -> bool, ino: nat)
    requires ino in Agreed(asked, mend)
    ensures ino in asked
    decreases |asked|
  {
    var n := |asked| - 1;
    if ino in Agreed(asked[..n], mend) {
      AgreedAsked(asked[..n], mend, ino);
    }
  }

  /** Repaired were those for which the answer was yes, and only odd ones that were not reconnected
      were asked about. */
  ghost predicate Questioned(start: Tree, done: set<nat>, asked: seq<nat>, reconnected: set<nat>, rs: seq<Repair>,
                             mend: nat -> bool)
  {
    && DirsOf(rs) == Agreed(asked, mend)
    && forall ino :: ino in asked ==> ino in done && Odd(start, ino) && ino !in reconnected
  }

  lemma {:induction false} QuestionedLater(start: Tree, done: set<nat>, asked: seq<nat>, reconnected: set<nat>,
                                           rs: seq<Repair>, mend: nat -> bool, done': set<nat>, ino: nat)
    requires Questioned(start, done, asked, reconnected, rs, mend) && done <= done' && ino !in done
    ensures Questioned(start, done', asked, reconnected, rs, mend)
    ensures Questioned(start, done', asked, reconnected + {ino}, rs, mend)
  {
  }

  /** A directory is odd in the table just if it was at the start and was not reconnected, as long as it
      has not been repaired. */
  lemma {:induction false} OddNow(start: Tree, now: Tree, done: set<nat>, asked: seq<nat>, reconnected: set<nat>,
                                  rs: seq<Repair>, lostAndFound: nat, mend: nat -> bool, ino: nat)
    requires Entered(start, now, reconnected, rs, lostAndFound) && ino in now
    requires Questioned(start, done, asked, reconnected, rs, mend)
    ensures Odd(now, ino) ==> Odd(start, ino) && ino !in reconnected
    ensures Odd(start, ino) && ino !in reconnected && ino !in asked ==> Odd(now, ino)
  {
    hide Repaired, DirsOf;
    assert now[ino] == Expected(start, reconnected, rs, lostAndFound, ino);
    if ino in DirsOf(rs) {
      AgreedAsked(asked, mend, ino);
    } else if ino in start {
      NotRepaired(start[ino], ino, rs);
    }
  }

  lemma {:induction false} OneMoreQuestion(start: Tree, done: set<nat>, asked: seq<nat>, reconnected: set<nat>,
                                           rs: seq<Repair>, mend: nat -> bool, ino: nat, lostAndFound: nat)
    requires Questioned(start, done, asked, reconnected, rs, mend)
    requires ino in done && Odd(start, ino) && ino !in reconnected
    ensures Questioned(start, done, asked + [ino], reconnected,
                       if mend(|asked|) then rs + [Repair(ino, lostAndFound)] else rs, mend)
  {
    AgreedSnoc(asked, mend, ino);
    DirsOfSnoc(rs, Repair(ino, lostAndFound));
  }

  /** Every odd directory among `given` was reconnected or asked about. */
  ghost predicate AllAsked(start: Tree, given: set<nat>, asked: seq<nat>, reconnected: set<nat>)
  {
    forall ino :: ino in given && Odd(start, ino) ==> ino in asked || ino in reconnected
  }

  lemma {:induction false} OneMoreAsked(start: Tree, given: set<nat>, asked: seq<nat>, reconnected: set<nat>,
                                        given': set<nat>, asked': seq<nat>, reconnected': set<nat>, ino: nat)
    requires AllAsked(start, given, asked, reconnected) && asked <= asked' && reconnected <= reconnected'
    requires given' <= given + {ino} && (ino in given' && Odd(start, ino) ==> ino in asked' || ino in reconnected')
    ensures AllAsked(start, given', asked', reconnected')
  {
    assert forall x :: x in asked ==> x in asked';
  }

  lemma {:induction false} FewerAsked(start: Tree, given: set<nat>, given': set<nat>, asked: seq<nat>,
                                      reconnected: set<nat>)
    requires AllAsked(start, given, asked, reconnected) && given' <= given
    ensures AllAsked(start, given', asked, reconnected)
  {
  }

  lemma {:induction false} NobodyAsked(start: Tree, entry: nat, a: Answers)
    ensures Answered(start, [], {}, 0, false, entry, a) && Questioned(start, {ROOT}, [], {}, [], a.mend)
    ensures AllAsked(start, {}, [], {})
  {
  }

  /** Above a directory that has not been dealt with is one that was, or one of the table. */
  lemma {:induction false} AboveIsKnown(start: Tree, now: Tree, done: set<nat>, reconnected: set<nat>, rs: seq<Repair>,
                                        lostAndFound: nat, ino: nat)
    requires Untouched(start, now, done) && Entered(start, now, reconnected, rs, lostAndFound) && Recorded(start)
    requires ROOT in done && ino in now && ino !in done && now[ino].parent != 0
    ensures now[ino].parent in done || now[ino].parent in now
  {
    assert now[ino] == Expected(start, reconnected, rs, lostAndFound, ino);
  }

  // ---------------------------------------------------------------- how far a chase goes

  /** The directories marked by a chase that begins at `ino` and follows fewer than `n` parents. */
  function Trail(t: Tree, done: set<nat>, ino: nat, n: nat): set<nat>
    decreases n
  {
    if n == 0 || ino in done then {}
    else {ino} + if ino !in t || t[ino].parent == 0 then {} else Trail(t, done + {ino}, t[ino].parent, n - 1)
  }

  /** It meets no directory that the table does not have. */
  predicate Surveyed(t: Tree, done: set<nat>, ino: nat, n: nat)
    decreases n
  {
    n == 0 || ino in done
    || (ino in t && (t[ino].parent == 0 || Surveyed(t, done + {ino}, t[ino].parent, n - 1)))
  }

  /** What the chase has marked so far and what it will mark. */
  ghost predicate Chasing(t: Tree, done0: set<nat>, dir: nat, done: set<nat>, ino: nat, n: nat)
  {
    && done + Trail(t, done, ino, n) == done0 + Trail(t, done0, dir, PATIENCE + 2)
    && (Surveyed(t, done, ino, n) <==> Surveyed(t, done0, dir, PATIENCE + 2))
  }

  lemma {:induction false} ChasingOn(t: Tree, done0: set<nat>, dir: nat, done: set<nat>, ino: nat, n: nat)
    requires Chasing(t, done0, dir, done, ino, n) && ino !in done && n > 0
    ensures ino !in t ==>
              done + {ino} == done0 + Trail(t, done0, dir, PATIENCE + 2) && !Surveyed(t, done0, dir, PATIENCE + 2)
    ensures ino in t && t[ino].parent == 0 ==>
              done + {ino} == done0 + Trail(t, done0, dir, PATIENCE + 2) && Surveyed(t, done0, dir, PATIENCE + 2)
    ensures ino in t && t[ino].parent != 0 ==> Chasing(t, done0, dir, done + {ino}, t[ino].parent, n - 1)
  {
    if ino in t && t[ino].parent != 0 {
      var rest := Trail(t, done + {ino}, t[ino].parent, n - 1);
      assert done + ({ino} + rest) == done + {ino} + rest;
    }
  }

  lemma {:induction false} ChasingBegins(t: Tree, done: set<nat>, dir: nat)
    ensures Chasing(t, done, dir, done, dir, PATIENCE + 2)
  {
  }

  /** At a directory that is done, or out of patience, nothing more is marked. */
  lemma {:induction false} ChasingEnds(t: Tree, done0: set<nat>, dir: nat, done: set<nat>, ino: nat, n: nat)
    requires Chasing(t, done0, dir, done, ino, n) && (ino in done || n == 0)
    ensures done == done0 + Trail(t, done0, dir, PATIENCE + 2) && Surveyed(t, done0, dir, PATIENCE + 2)
    ensures forall ino' :: ino' in done ==> Chasing(t, done0, dir, done, ino', 0)
  {
  }

  // ---------------------------------------------------------------- how often a directory is checked

  ghost predicate Increasing(ds: seq<nat>)
  {
    forall i, j :: 0 <= i < j < |ds| ==> ds[i] < ds[j]
  }

  function Without(ds: seq<nat>, k: nat): seq<nat>
  {
    if k < |ds| then ds[..k] + ds[k + 1..] else ds
  }

  /** No directory occurs twice, but for one at most that occurs once too often. */
  ghost predicate OneRepeat(ds: seq<nat>)
  {
    exists k: nat :: Increasing(Without(ds, k))
  }

  /** From entry `i` on there are only directories after `last`. */
  ghost predicate Beyond(s: seq<Dir>, i: nat, last: int)
  {
    forall j :: i <= j < |s| ==> s[j].ino > last
  }

  ghost function UpTo(keys: set<nat>, last: int): set<nat>
  {
    set ino | ino in keys && ino <= last
  }

  lemma {:induction false} SortedSize(s: seq<Dir>)
    requires Sorted(s)
    ensures |Table(s).Keys| == |s|
  {
    TableSize(s);
    FirstFit(s, |s|, Table(s).Keys);
  }

  /** The first `n` directories of the table are so many. */
  lemma {:induction false} FirstFit(s: seq<Dir>, n: nat, keys: set<nat>)
    requires Sorted(s) && n <= |s| && forall k :: 0 <= k < n && s[k].ino in Table(s) ==> s[k].ino in keys
    ensures n <= |keys|
  {
    var inos := seq(n, i requires 0 <= i < n => s[i].ino);
    forall x | x in inos ensures x in keys {
      var k :| 0 <= k < n && inos[k] == x;
      TableDomain(s, s[k].ino);
    }
    DistinctFits(inos, keys);
  }

  /** One insertion moves entries up by one place at most. */
  lemma {:induction false} ShiftedByOne(s: seq<Dir>, s': seq<Dir>, i: nat, last: int)
    requires Sorted(s) && Sorted(s') && Table(s).Keys <= Table(s').Keys && |s| <= |s'| <= |s| + 1
    requires i <= |s| && Beyond(s, i, last)
    ensures Beyond(s', i + |s'| - |s|, last)
  {
    hide Table;
    var keys, keys' := Table(s).Keys, Table(s').Keys;
    SortedSize(s);
    SortedSize(s');
    AtMost(s, i, last);
    MoreKeys(keys, keys', last);
    forall j | i + |s'| - |s| <= j < |s'| ensures s'[j].ino > last {
      if s'[j].ino <= last {
        AtLeast(s', j + 1, last);
      }
    }
  }

  /** So the directory last met is met again at most, and none before it. */
  lemma {:induction false} MetAgain(s: seq<Dir>, i: nat, last: nat)
    requires Sorted(s) && last in Table(s) && Beyond(s, i + 1, last) && i < |s|
    ensures s[i].ino >= last
  {
    TableDomain(s, last);
    var k :| 0 <= k < |s| && s[k].ino == last;
    assert k <= i;
  }

  lemma {:induction false} AtMost(s: seq<Dir>, i: nat, last: int)
    requires Sorted(s) && i <= |s| && Beyond(s, i, last)
    ensures |UpTo(Table(s).Keys, last)| <= i
  {
    var front := s[..i];
    forall ino | ino in UpTo(Table(s).Keys, last) ensures ino in Table(front) {
      TableDomain(s, ino);
      var k :| 0 <= k < |s| && s[k].ino == ino;
      assert front[k].ino == ino;
      TableDomain(front, ino);
    }
    TableSize(front);
    Pass.SubsetCount(UpTo(Table(s).Keys, last), Table(front).Keys);
  }

  lemma {:induction false} AtLeast(s: seq<Dir>, n: nat, last: int)
    requires Sorted(s) && 0 < n <= |s| && s[n - 1].ino <= last
    ensures n <= |UpTo(Table(s).Keys, last)|
  {
    forall k | 0 <= k < n && s[k].ino in Table(s) ensures s[k].ino in UpTo(Table(s).Keys, last) {
      assert s[k].ino <= s[n - 1].ino;
    }
    FirstFit(s, n, UpTo(Table(s).Keys, last));
  }

  lemma {:induction false} MoreKeys(keys: set<nat>, keys': set<nat>, last: int)
    requires keys <= keys'
    ensures |UpTo(keys', last)| <= |UpTo(keys, last)| + |keys'| - |keys|
  {
    var more := keys' - keys;
    assert keys' == keys + more;
    assert UpTo(keys', last) == UpTo(keys, last) + UpTo(more, last);
    Pass.SubsetCount(UpTo(more, last), more);
  }

  /** Where the iteration stands: the directory last met, whether one was met twice, and the directories
      repaired so far.  `size` is the number of directories at the start. */
  ghost predicate InOrder(s: seq<Dir>, i: nat, last: int, again: bool, size: nat, ds: seq<nat>)
  {
    && -1 <= last && (last >= 0 ==> last in Table(s))
    && (Beyond(s, i, last) || (!again && |s| > size && last >= 0 && Beyond(s, i + 1, last)))
    && (if again then |s| > size && OneRepeat(ds) else Increasing(ds))
    && forall d :: d in ds ==> d <= last
  }

  /** The same while directory `ino` is checked. */
  ghost predicate Checking(s: seq<Dir>, i: nat, ino: nat, again: bool, twice: bool, size: nat, ds: seq<nat>)
  {
    && Beyond(s, i, ino) && ino in Table(s) && (twice ==> again) && (again ==> |s| > size)
    && (if again && !twice then OneRepeat(ds) else Increasing(ds))
    && forall d :: d in ds ==> if twice then d <= ino else d < ino
  }

  lemma {:induction false} NobodyMet(s: seq<Dir>)
    ensures InOrder(s, 0, -1, false, |s|, DirsOf([]))
  {
  }

  lemma {:induction false} NextInOrder(s: seq<Dir>, i: nat, last: int, again: bool, size: nat, ds: seq<nat>)
    requires Sorted(s) && i < |s| && InOrder(s, i, last, again, size, ds)
    ensures var ino := s[i].ino;
            ino >= last && Checking(s, i + 1, ino, again || ino == last, ino == last, size, ds)
  {
    hide Table, Increasing, OneRepeat;
    if !Beyond(s, i, last) {
      MetAgain(s, i, last);
    }
    TableDomain(s, s[i].ino);
  }

  lemma {:induction false} OneMoreIncreasing(ds: seq<nat>, ino: nat)
    requires Increasing(ds) && forall d :: d in ds ==> d < ino
    ensures Increasing(ds + [ino])
  {
    forall i | 0 <= i < |ds| ensures ds[i] < ino {
      assert ds[i] in ds;
    }
  }

  lemma {:induction false} Repeats(ds: seq<nat>, k: nat, less: seq<nat>)
    requires Without(ds, k) == less && Increasing(less)
    ensures OneRepeat(ds)
  {
  }

  lemma {:induction false} WithoutSnoc(ds: seq<nat>, ino: nat, k: nat)
    ensures Without(ds + [ino], |ds|) == ds && Without(ds, |ds|) == ds
    ensures k < |ds| ==> Without(ds + [ino], k) == Without(ds, k) + [ino]
    ensures forall d :: d in Without(ds, k) ==> d in ds
  {
  }

  lemma {:induction false} OneMoreRepeats(ds: seq<nat>, ino: nat)
    requires OneRepeat(ds) && forall d :: d in ds ==> d < ino
    ensures OneRepeat(ds + [ino])
  {
    hide Increasing, Without;
    var k: nat :| Increasing(Without(ds, k));
    WithoutSnoc(ds, ino, k);
    OneMoreIncreasing(Without(ds, k), ino);
    if k < |ds| {
      Repeats(ds + [ino], k, Without(ds, k) + [ino]);
    } else {
      WholeWithout(ds, k);
      WithoutSnoc(ds + [ino], ino, k);
      Repeats(ds + [ino], |ds| + 1, ds + [ino]);
    }
  }

  lemma {:induction false} WholeWithout(ds: seq<nat>, k: nat)
    requires k >= |ds|
    ensures Without(ds, k) == ds
  {
  }

  lemma {:induction false} OneMoreRepaired(ds: seq<nat>, ino: nat)
    ensures Increasing(ds) ==> OneRepeat(ds) && OneRepeat(ds + [ino])
    ensures (forall d :: d in ds ==> d < ino) ==>
              (Increasing(ds) ==> Increasing(ds + [ino])) && (OneRepeat(ds) ==> OneRepeat(ds + [ino]))
  {
    hide Increasing, Without, OneRepeat;
    WithoutSnoc(ds, ino, |ds|);
    if Increasing(ds) {
      Repeats(ds, |ds|, ds);
      Repeats(ds + [ino], |ds|, ds);
    }
    if forall d :: d in ds ==> d < ino {
      if Increasing(ds) {
        OneMoreIncreasing(ds, ino);
      }
      if OneRepeat(ds) {
        OneMoreRepeats(ds, ino);
      }
    }
  }

  lemma {:induction false} CheckedInOrder(s: seq<Dir>, s': seq<Dir>, i: nat, ino: nat, again: bool, twice: bool,
                                          size: nat, ds: seq<nat>, ds': seq<nat>, done: set<nat>)
    requires Sorted(s) && Mended(s, s', done) && i <= |s| && size <= |s| && |s'| <= size + 1
    requires Checking(s, i, ino, again, twice, size, ds) && (ds' == ds || ds' == ds + [ino])
    ensures InOrder(s', i, ino, again, size, ds')
  {
    hide Table, Increasing, OneRepeat;
    ShiftedByOne(s, s', i, ino);
    OneMoreRepaired(ds, ino);
  }

  lemma {:induction false} PassedInOrder(s: seq<Dir>, i: nat, ino: nat, again: bool, twice: bool, size: nat,
                                         ds: seq<nat>)
    requires Checking(s, i, ino, again, twice, size, ds)
    ensures InOrder(s, i, ino, again, size, ds)
  {
    hide Table, Increasing, OneRepeat, Beyond;
    OneMoreRepaired(ds, ino);
  }

  lemma {:induction false} AllInOrder(s: seq<Dir>, i: nat, last: int, again: bool, size: nat, ds: seq<nat>)
    requires InOrder(s, i, last, again, size, ds)
    ensures Increasing(ds) || (|s| > size && OneRepeat(ds))
  {
  }

  // ---------------------------------------------------------------- where the iteration stands

  /** The directories met so far, the last of them, and whether one was met twice. */
  datatype Place = Place(given: set<nat>, last: int, again: bool) {
    function Next(ino: nat): Place
    {
      Place(given + {ino}, ino, again || ino == last)
    }
  }

  const Nobody: Place := Place({}, -1, false)

  /** No directory of the start is missed; those of them that are directories (`dirs`) have been dealt with
      when they have been met, and if they are odd they were asked about; and the repairs are in order. */
  ghost predicate OnTrack(start: Tree, s: seq<Dir>, i: nat, at: Place, size: nat, dirs: set<nat>, done: set<nat>,
                           asked: seq<nat>, reconnected: set<nat>, rs: seq<Repair>)
  {
    && NoneMissed(s, i, start.Keys, at.given) && at.given * dirs <= done
    && InOrder(s, i, at.last, at.again, size, DirsOf(rs))
    && (Recorded(start) ==> AllAsked(start, at.given * dirs, asked, reconnected))
  }

  lemma {:induction false} OnTrackAtStart(start: Tree, s: seq<Dir>, dirs: set<nat>, asked: seq<nat>, rs: seq<Repair>)
    requires NoneMissed(s, 0, start.Keys, {}) && InOrder(s, 0, -1, false, |s|, DirsOf(rs))
    requires AllAsked(start, {}, asked, {})
    ensures OnTrack(start, s, 0, Nobody, |s|, dirs, {ROOT}, asked, {}, rs)
  {
    hide NoneMissed, InOrder, AllAsked, DirsOf, Recorded;
    assert {} * dirs == {};
  }

  lemma {:induction false} OnTrackPassed(start: Tree, s: seq<Dir>, i: nat, at: Place, size: nat, dirs: set<nat>,
                                          done: set<nat>, asked: seq<nat>, reconnected: set<nat>, rs: seq<Repair>)
    requires Sorted(s) && 0 < i <= |s| && s[i - 1].ino !in dirs
    requires OnTrack(start, s, i - 1, at, size, dirs, done, asked, reconnected, rs)
    ensures OnTrack(start, s, i, at.Next(s[i - 1].ino), size, dirs, done, asked, reconnected, rs)
  {
    hide NoneMissed, InOrder, Checking, AllAsked, DirsOf, Recorded, Sorted;
    var ino := s[i - 1].ino;
    NextMissesNone(s, i - 1, start.Keys, at.given);
    NextInOrder(s, i - 1, at.last, at.again, size, DirsOf(rs));
    PassedInOrder(s, i, ino, at.again || ino == at.last, ino == at.last, size, DirsOf(rs));
    assert at.Next(ino).given * dirs == at.given * dirs;
  }

  lemma {:induction false} OnTrackChecked(start: Tree, s: seq<Dir>, s': seq<Dir>, i: nat, at: Place, size: nat,
                                           dirs: set<nat>, done: set<nat>, done': set<nat>, asked: seq<nat>,
                                           asked': seq<nat>, reconnected: set<nat>, reconnected': set<nat>,
                                           rs: seq<Repair>, rs': seq<Repair>)
    requires Sorted(s) && 0 < i <= |s| && Mended(s, s', done') && size <= |s| && |s'| <= size + 1
    requires OnTrack(start, s, i - 1, at, size, dirs, done, asked, reconnected, rs)
    requires done <= done' && s[i - 1].ino in done' && asked <= asked' && reconnected <= reconnected'
    requires DirsOf(rs') == DirsOf(rs) || DirsOf(rs') == DirsOf(rs) + [s[i - 1].ino]
    requires Recorded(start) && Odd(start, s[i - 1].ino) ==> s[i - 1].ino in asked' || s[i - 1].ino in reconnected'
    ensures OnTrack(start, s', i, at.Next(s[i - 1].ino), size, dirs, done', asked', reconnected', rs') && |s| <= |s'|
  {
    hide NoneMissed, InOrder, Checking, AllAsked, DirsOf, Recorded, Sorted, Odd, Mended;
    var ino := s[i - 1].ino;
    var given, given' := at.given * dirs, at.Next(ino).given * dirs;
    assert given' <= given + {ino};
    NextMissesNone(s, i - 1, start.Keys, at.given);
    StillNoneMissed(s, s', i, start.Keys, at.Next(ino).given, done');
    NextInOrder(s, i - 1, at.last, at.again, size, DirsOf(rs));
    CheckedInOrder(s, s', i, ino, at.again || ino == at.last, ino == at.last, size, DirsOf(rs), DirsOf(rs'), done');
    if Recorded(start) {
      OneMoreAsked(start, given, asked, reconnected, given', asked', reconnected', ino);
    }
  }

  lemma {:induction false} OnTrackAtEnd(start: Tree, s: seq<Dir>, i: nat, at: Place, size: nat, dirs: set<nat>,
                                    done: set<nat>, asked: seq<nat>, reconnected: set<nat>, rs: seq<Repair>)
    requires OnTrack(start, s, i, at, size, dirs, done, asked, reconnected, rs) && i >= |s|
    ensures start.Keys * dirs <= done
    ensures Recorded(start) ==> AllAsked(start, start.Keys * dirs, asked, reconnected)
    ensures Increasing(DirsOf(rs)) || (|s| > size && OneRepeat(DirsOf(rs)))
  {
    hide NoneMissed, InOrder, AllAsked, DirsOf, Recorded, Increasing, OneRepeat;
    AllGiven(s, i, start.Keys, at.given);
    AllInOrder(s, i, at.last, at.again, size, DirsOf(rs));
    if Recorded(start) {
      FewerAsked(start, at.given * dirs, start.Keys * dirs, asked, reconnected);
    }
  }

  // ---------------------------------------------------------------- the code

  class Pass {
    const db: DirInfoDb
    const entry: nat            // the inode that "lost+found" in the root names, 0 if there is no such name
    const answers: Answers
    var dirMap: set<nat>        // inode_dir_map
    var done: set<nat>          // inode_done_map
    var lostAndFound: nat       // 0 until it is known
    var badLostAndFound: bool
    var offered: seq<nat>       // directories about which PR_3_UNCONNECTED_DIR was reported
    var reconnected: set<nat>   // directories that were given a name in lost+found
    var asked: seq<nat>         // directories about which PR_3_BAD_DOT_DOT was reported
    var repairs: seq<Repair>    // the '..' entries repaired, in order
    ghost var turns: nat        // turns of the chasing loop so far

    constructor (db: DirInfoDb, dirMap: set<nat>, entry: nat, answers: Answers)
      ensures this.db == db && this.dirMap == dirMap && this.entry == entry && this.answers == answers && Unstarted()
    {
      this.db, this.dirMap, this.entry, this.answers := db, dirMap, entry, answers;
      lostAndFound, badLostAndFound := 0, false;
      done, offered, reconnected, asked, repairs, turns := {}, [], {}, [], [], 0;
    }

    ghost predicate Unstarted()
      reads this
    {
      && done == {} && offered == [] && reconnected == {} && asked == [] && repairs == [] && turns == 0
      && lostAndFound == 0 && !badLostAndFound
    }

    /** How many directories may still be created: lost+found, once. */
    ghost function Births(): nat
      reads this`lostAndFound, this`badLostAndFound
    {
      if lostAndFound == 0 && !badLostAndFound then 1 else 0
    }

    ghost function Entries(): seq<Dir>
      requires db.Valid()
      reads db, db.dirs
    {
      db.Contents()
    }

    /** e2fsck_get_lost_and_found: the directory that the root names, or one made in an unused inode,
        or none.  If there is no room for it lost+found is said to be the root, and still is none. */
    method GetLostAndFound(site: Site) returns (ino: nat)
      requires db.Valid()
      modifies this`lostAndFound, this`dirMap, db, db.dirs
      ensures db.Valid() && (db.dirs == old(db.dirs) || fresh(db.dirs))
      ensures Mended(old(Entries()), Entries(), done) && old(dirMap) <= dirMap
      ensures |Entries()| <= |old(Entries())| + (if ino == 0 || old(lostAndFound) != 0 then 0 else 1)
      ensures if old(lostAndFound) != 0 then ino == lostAndFound == old(lostAndFound)
              else if ino == 0 then lostAndFound == 0 || lostAndFound == ROOT
              else ino == lostAndFound && (ino == entry || ino !in old(Table(Entries())))
      ensures old(lostAndFound) == 0 ==>
                && ino == Found(entry, site, old(Table(Entries())).Keys)
                && lostAndFound == Noted(entry, site, old(Table(Entries())).Keys)
      ensures dirMap == old(dirMap) + (Table(Entries()).Keys - old(Table(Entries())).Keys)
      ensures Made(old(Table(Entries())), Table(Entries()), lostAndFound)
      ensures old(lostAndFound) != 0 ==> Table(Entries()) == old(Table(Entries()))
      ensures lostAndFound == old(lostAndFound) || Located(Table(Entries()), lostAndFound, entry)
    {
      hide Table, Mended, Added, Sorted;
      ghost var s := Entries();
      MendedSelf(s, done);
      if lostAndFound != 0 {
        return lostAndFound;
      }
      var unused := site.spare;
      if entry != 0 && site.usable {
        lostAndFound := entry;
        return entry;
      }
      if !site.make {
        return 0;
      }
      if !site.room {
        lostAndFound := ROOT;
        return 0;
      }
      var k := db.Get(unused);
      if unused == 0 || k >= 0 {
        return 0;
      }
      MendedNew(s, unused, done);
      AddedLength(s, Dir(unused, ROOT, ROOT));
      db.Add(unused, ROOT);
      dirMap := dirMap + {unused};
      lostAndFound := unused;
      return unused;
    }

    /** e2fsck_reconnect_file; linking the directory into lost+found may fail. */
    method Reconnect(ino: nat) returns (failed: bool)
      requires db.Valid()
      modifies this`lostAndFound, this`badLostAndFound, this`dirMap, this`reconnected, db, db.dirs
      ensures db.Valid() && (db.dirs == old(db.dirs) || fresh(db.dirs))
      ensures Mended(old(Entries()), Entries(), done) && old(dirMap) <= dirMap
      ensures |Entries()| + Births() <= |old(Entries())| + old(Births())
      ensures old(lostAndFound) != 0 || old(badLostAndFound) ==>
                lostAndFound == old(lostAndFound) && badLostAndFound == old(badLostAndFound)
      ensures badLostAndFound || (lostAndFound != 0 && (lostAndFound == old(lostAndFound) || lostAndFound == entry
                                                        || lostAndFound !in old(Table(Entries()))))
      ensures old(lostAndFound) == 0 && !old(badLostAndFound) ==>
                var home := Found(entry, answers.site, old(Table(Entries())).Keys);
                badLostAndFound == (home == 0) && lostAndFound == Noted(entry, answers.site, old(Table(Entries())).Keys)
      ensures failed == (badLostAndFound || !answers.fit(ino))
      ensures Made(old(Table(Entries())), Table(Entries()), lostAndFound)
      ensures old(lostAndFound) != 0 || old(badLostAndFound) ==> Table(Entries()) == old(Table(Entries()))
      ensures lostAndFound == old(lostAndFound) || Located(Table(Entries()), lostAndFound, entry)
      ensures reconnected == if failed then old(reconnected) else old(reconnected) + {ino}
    {
      hide Table, Mended;
      MendedSelf(Entries(), done);
      if !badLostAndFound && lostAndFound == 0 {
        var lostAndFound := GetLostAndFound(answers.site);
        if lostAndFound == 0 {
          badLostAndFound := true;
        }
      }
      if badLostAndFound || !answers.fit(ino) {
        return true;
      }
      failed := false;
      reconnected := reconnected + {ino};
    }

    /** fix_dotdot: whatever the new '..' is, the table then has lost+found as the parent. */
    method FixDotdot(ino: nat, parent: nat)
      requires db.Valid() && ino in done
      modifies db.dirs
      ensures db.Valid() && db.dirs == old(db.dirs)
      ensures Mended(old(Entries()), Entries(), done) && |Entries()| == |old(Entries())|
      ensures Table(Entries()) == if ino in old(Table(Entries()))
              then old(Table(Entries()))[ino := Links(parent, lostAndFound)]
                                  else old(Table(Entries()))
    {
      hide Table, Added, Sorted;
      ghost var s := Entries();
      MendedSelf(s, done);
      var found := db.SetDotdot(ino, parent);
      ghost var s1 := Entries();
      if found {
        MendedEntry(s, Dir(ino, parent, Table(s)[ino].parent), done);
      }
      found := db.SetParent(ino, lostAndFound);
      if found {
        MendedEntry(s1, Dir(ino, Table(s1)[ino].dotdot, lostAndFound), done);
      }
      MendedJoin(s, s1, Entries(), done, done);
    }

    /** Those reconnected were offered, and hang in one lost+found: the one that the root names, or
        one that the table did not have at the start. */
    ghost predicate Housed(start: Tree)
      reads this
    {
      && (forall ino :: ino in reconnected ==> ino in offered)
      && (reconnected != {} ==> lostAndFound != 0 && !badLostAndFound)
      && (lostAndFound == 0 || badLostAndFound || lostAndFound == entry || lostAndFound !in start)
    }

    /** The invariant of the pass; `start` is the table as pass 2 left it. */
    ghost predicate Sound(start: Tree)
      reads this, db, db.dirs
    {
      && db.Valid() && ROOT in done && Untouched(start, Table(Entries()), done)
      && Settled(start, done, offered) && Housed(start)
      && Entered(start, Table(Entries()), reconnected, repairs, lostAndFound)
      && Located(Table(Entries()), lostAndFound, entry)
      && Answered(start, offered, reconnected, lostAndFound, badLostAndFound, entry, answers)
      && Questioned(start, done, asked, reconnected, repairs, answers.mend)
    }

    /** A directory is given a place in lost+found, if there is one and the linking succeeds. */
    method Rehome(ino: nat, ghost start: Tree)
      requires db.Valid() && ino in done && ino in start
      requires Entered(start, Table(Entries()), reconnected, repairs, lostAndFound)
               && Located(Table(Entries()), lostAndFound, entry)
      requires lostAndFound == 0 ==> reconnected == {}
      modifies this`lostAndFound, this`badLostAndFound, this`dirMap, this`reconnected, db, db.dirs
      ensures db.Valid() && (db.dirs == old(db.dirs) || fresh(db.dirs))
      ensures Mended(old(Entries()), Entries(), done) && old(dirMap) <= dirMap
      ensures |Entries()| + Births() <= |old(Entries())| + old(Births())
      ensures var home := Found(entry, answers.site, start.Keys);
              if old(lostAndFound) != 0 || old(badLostAndFound)
              then lostAndFound == old(lostAndFound) && badLostAndFound == old(badLostAndFound)
              else badLostAndFound == (home == 0) && lostAndFound == Noted(entry, answers.site, start.Keys)
      ensures badLostAndFound || (lostAndFound != 0 && (lostAndFound == old(lostAndFound) || lostAndFound == entry
                                                        || lostAndFound !in start))
      ensures reconnected == if badLostAndFound || !answers.fit(ino) then old(reconnected) else old(reconnected) + {ino}
      ensures Entered(start, Table(Entries()), reconnected, repairs, lostAndFound)
      ensures Located(Table(Entries()), lostAndFound, entry)
    {
      hide Table, Mended, Entered, Found, Noted;
      ghost var s, was, known := Entries(), reconnected, lostAndFound;
      KeysAtStart(start, Table(s), was, repairs, known);
      var failed := Reconnect(ino);
      ghost var s1 := Entries();
      if known == 0 {
        EnteredFound(start, Table(s), Table(s1), repairs, lostAndFound);
      }
      assert Entered(start, Table(s1), was, repairs, lostAndFound);
      if !failed {
        StillThere(s, s1, done, ino);
        FixDotdot(ino, lostAndFound);
        EnteredReconnected(start, Table(s1), was, repairs, lostAndFound, ino);
        MendedJoin(s, s1, Entries(), done, done);
      }
    }

    /** A directory without a parent has just been met and marked. */
    method Offer(ino: nat, ghost start: Tree, ghost done0: set<nat>)
      requires db.Valid() && Untouched(start, Table(Entries()), done0) && Settled(start, done0, offered)
               && ROOT in done0 && Housed(start)
      requires Entered(start, Table(Entries()), reconnected, repairs, lostAndFound)
               && Located(Table(Entries()), lostAndFound, entry)
      requires Answered(start, offered, reconnected, lostAndFound, badLostAndFound, entry, answers)
               && Questioned(start, done0, asked, reconnected, repairs, answers.mend)
      requires done == done0 + {ino} && ino !in done0 && ino in Table(Entries()) && Table(Entries())[ino].parent == 0
      modifies this, db, db.dirs
      ensures db.dirs == old(db.dirs) || fresh(db.dirs)
      ensures Sound(start) && done == old(done) && turns == old(turns) && old(dirMap) <= dirMap
      ensures repairs == old(repairs) && asked == old(asked) && old(reconnected) <= reconnected
      ensures Mended(old(Entries()), Entries(), done) && |Entries()| + Births() <= |old(Entries())| + old(Births())
    {
      hide Table, Mended, Settled, Untouched, Entered, Answered, Questioned, Found, Noted;
      ghost var s, before := Entries(), offered;
      NotOffered(start, done0, offered, ino);
      MarkOrphan(start, Table(s), done0, offered, ino);
      QuestionedLater(start, done0, asked, reconnected, repairs, answers.mend, done, ino);
      offered := offered + [ino];
      MendedSelf(s, done);
      if answers.take(ino) {
        StartStays(start, Table(s), done0);
        ghost var was, known, bad := reconnected, lostAndFound, badLostAndFound;
        Rehome(ino, start);
        Accepted(start, before, was, known, bad, lostAndFound, badLostAndFound, entry, answers, ino);
      } else {
        Declined(start, before, reconnected, lostAndFound, badLostAndFound, entry, answers, ino);
      }
      StillUntouched(start, s, Entries(), done);
    }

    /** The directories dealt with. */
    ghost function Dealt(s: seq<Dir>, done: set<nat>): nat
    {
      |done * Table(s).Keys|
    }

    lemma {:induction false} DealtOneMore(s: seq<Dir>, done: set<nat>, ino: nat)
      requires ino !in done && ino in Table(s)
      ensures Dealt(s, done + {ino}) == Dealt(s, done) + 1 && Table(s).Keys - (done + {ino}) < Table(s).Keys - done
    {
      assert (done + {ino}) * Table(s).Keys == done * Table(s).Keys + {ino};
      assert ino in Table(s).Keys - done;
    }

    lemma {:induction false} DealtGrows(s: seq<Dir>, s': seq<Dir>, done: set<nat>, done': set<nat>, done'': set<nat>)
      requires Mended(s, s', done'') && done <= done'
      ensures Dealt(s, done) <= Dealt(s', done')
    {
      SubsetCount(done * Table(s).Keys, done' * Table(s').Keys);
    }

    lemma {:induction false} DealtBound(s: seq<Dir>, done: set<nat>)
      ensures Dealt(s, done) <= |s|
    {
      TableSize(s);
      SubsetCount(done * Table(s).Keys, Table(s).Keys);
    }

    static lemma {:induction false} SubsetCount(a: set<nat>, b: set<nat>)
      requires a <= b
      ensures |a| <= |b|
    {
      assert |b| == |a| + |b - a| by {
        assert b == a + (b - a);
      }
    }

    /** The loop of check_directory: parents are followed until a directory is met that is done, or
        is in no table, or has no parent.  Once loop detection is switched on the walk starts again
        from `dir`, which is done, and so ends at once. */
    method Chase(dir: nat, ghost start: Tree) returns (known: bool)
      requires Sound(start) && dir in Table(Entries())
      modifies this, db, db.dirs
      ensures db.dirs == old(db.dirs) || fresh(db.dirs)
      ensures Sound(start) && dir in done && old(done) <= done && old(dirMap) <= dirMap && repairs == old(repairs)
      ensures asked == old(asked) && old(reconnected) <= reconnected && (Recorded(start) ==> known)
      ensures done == old(done) + Trail(old(Table(Entries())), old(done), dir, PATIENCE + 2)
      ensures known == Surveyed(old(Table(Entries())), old(done), dir, PATIENCE + 2)
      ensures Mended(old(Entries()), Entries(), done) && |Entries()| + Births() <= |old(Entries())| + old(Births())
      ensures turns <= old(turns) + Dealt(Entries(), done) - Dealt(old(Entries()), old(done)) + 1
    {
      hide Table, Mended, Settled, Untouched, Dealt, Entered, Answered, Questioned, Recorded, Trail, Surveyed, Located,
           Chasing;
      ghost var s := Entries();
      assert Chasing(Table(s), done, dir, done, dir, PATIENCE + 2) by {
        ChasingBegins(Table(s), done, dir);
      }
      var ino, loopPass, parentCount, loopDetect: set<nat> := dir, false, 0, {};
      while true
        invariant db.Valid() && db.dirs == old(db.dirs) && Entries() == s && dirMap == old(dirMap)
                  && Births() == old(Births())
        invariant Sound(start) && old(done) <= done && repairs == old(repairs) && asked == old(asked)
        invariant reconnected == old(reconnected) && (Recorded(start) ==> ino in done || ino in Table(s))
        invariant if loopPass then ino == dir && dir in done else ino == dir || dir in done
        invariant turns + Dealt(s, old(done)) <= old(turns) + Dealt(s, done)
        invariant parentCount <= PATIENCE + 2 && (loopPass <==> parentCount == PATIENCE + 2)
        invariant Chasing(Table(s), old(done), dir, done, ino, PATIENCE + 2 - parentCount)
        decreases Table(s).Keys - done
      {
        turns := turns + 1;
        if ino in done {
          ChasingEnds(Table(s), old(done), dir, done, ino, PATIENCE + 2 - parentCount);
          break;
        }
        ChasingOn(Table(s), old(done), dir, done, ino, PATIENCE + 2 - parentCount);
        ghost var done0 := done;
        done := done + {ino};
        var found, links := db.GetLinks(ino);
        QuestionedLater(start, done0, asked, reconnected, repairs, answers.mend, done, ino);
        if !found {
          MarkOther(start, Table(s), done0, offered, ino);
          MendedSelf(s, done);
          DealtGrows(s, s, done0, done, done);
          return false;
        }
        DealtOneMore(s, done0, ino);
        if links.parent == 0 || (loopPass && links.parent in loopDetect) {
          Offer(ino, start, done0);
          DealtGrows(s, Entries(), done, done, done);
          return true;
        }
        MarkOther(start, Table(s), done0, offered, ino);
        if Recorded(start) {
          AboveIsKnown(start, Table(s), done0, reconnected, repairs, lostAndFound, ino);
        }
        ino := links.parent;
        if loopPass {
          loopDetect := loopDetect + {ino};
        } else {
          var was := parentCount;
          parentCount := parentCount + 1;
          if was > PATIENCE {
            loopPass, loopDetect := true, {};
            ChasingEnds(Table(s), old(done), dir, done, ino, 0);
            ino := dir;
          }
        }
      }
      MendedSelf(s, done);
      known := true;
    }

    /** check_directory: the chase, and then the comparison of '..' with the parent. */
    method CheckDirectory(dir: nat, ghost start: Tree)
      requires Sound(start) && dir in Table(Entries())
      modifies this, db, db.dirs
      ensures db.Valid() && (db.dirs == old(db.dirs) || fresh(db.dirs))
      ensures Sound(start) && dir in done && old(done) <= done && old(dirMap) <= dirMap
      ensures repairs == old(repairs) || repairs == old(repairs) + [Repair(dir, lostAndFound)]
      ensures (asked == old(asked) || asked == old(asked) + [dir]) && old(reconnected) <= reconnected
      ensures done == old(done) + Trail(old(Table(Entries())), old(done), dir, PATIENCE + 2)
      ensures !Surveyed(old(Table(Entries())), old(done), dir, PATIENCE + 2) ==> asked == old(asked)
      ensures Recorded(start) && Odd(start, dir) ==> dir in asked || dir in reconnected
      ensures Mended(old(Entries()), Entries(), done) && |Entries()| + Births() <= |old(Entries())| + old(Births())
      ensures turns <= old(turns) + Dealt(Entries(), done) - Dealt(old(Entries()), old(done)) + 1
    {
      hide Table, Mended, Settled, Untouched, Dealt, Entered, Answered, Questioned, Recorded, Trail, Surveyed;
      ghost var s := Entries();
      var known := Chase(dir, start);
      if !known {
        return;
      }
      ghost var s1 := Entries();
      StillThere(s, s1, done, dir);
      OddNow(start, Table(s1), done, asked, reconnected, repairs, lostAndFound, answers.mend, dir);
      var found, links := db.GetLinks(dir);
      if found && links.dotdot != links.parent {
        OneMoreQuestion(start, done, asked, reconnected, repairs, answers.mend, dir, lostAndFound);
        var fix := answers.mend(|asked|);
        asked := asked + [dir];
        if fix {
          FixDotdot(dir, links.parent);
          EnteredRepaired(start, Table(s1), reconnected, repairs, lostAndFound, dir);
          repairs := repairs + [Repair(dir, lostAndFound)];
          StillUntouched(start, s1, Entries(), done);
          MendedJoin(s, s1, Entries(), done, done);
          DealtGrows(s1, Entries(), done, done, done);
        }
      }
    }

    /** The outer loop of pass 3, and the forced creation of lost+found after it.

        For every directory the pass began with: it is offered a place in lost+found exactly once if
        pass 2 had found no parent for it, and not at all otherwise.  The turns of the chasing loop are
        no more than the directories, and one for each call.

        In the tree that the pass leaves, directories whose parents are all among themselves are as
        they were: none was reconnected, and none is connected to the root.  Any other is connected
        exactly if following parents from it leads to the root or to a directory that was reconnected;
        and if every offer was taken up, exactly if following parents comes to an end. */
    method Run(readOnly: bool) returns (calls: nat)
      requires db.Valid() && Unstarted()
      modifies this, db, db.dirs
      ensures db.Valid() && Distinct(offered)
      ensures forall ino :: ino in old(Table(Entries())) && ino in old(dirMap) && ino != ROOT ==>
                (ino in offered <==> old(Table(Entries()))[ino].parent == 0)
      ensures forall ino :: ino in offered ==> ino in Orphans(old(Table(Entries())))
      ensures turns <= |Entries()| + calls && calls <= |Entries()|
      ensures var home := Found(entry, answers.site, old(Table(Entries())).Keys);
              forall ino :: ino in reconnected <==>
                   ino in offered && answers.take(ino) && answers.fit(ino) && home != 0
      ensures var keys := old(Table(Entries())).Keys;
              var first := if Tried(offered, answers) then Noted(entry, answers.site, keys) else 0;
              lostAndFound == if first != 0 || readOnly then first else Noted(entry, answers.atEnd, keys)
      ensures DirsOf(repairs) == Agreed(asked, answers.mend)
      ensures forall ino :: ino in asked ==> Odd(old(Table(Entries())), ino) && ino !in reconnected
      ensures Recorded(old(Table(Entries()))) ==>
                forall ino :: ino in old(dirMap) && Odd(old(Table(Entries())), ino) && ino !in reconnected ==>
                  ino in asked
      ensures forall ino :: ino in reconnected ==>
                ino in Table(Entries()) && Table(Entries())[ino] == Links(lostAndFound, lostAndFound)
      ensures forall ino :: ino in old(Table(Entries())) && ino !in reconnected ==>
                && ino in Table(Entries())
                && Table(Entries())[ino] == Repaired(old(Table(Entries()))[ino], ino, repairs)
                && (ino !in DirsOf(repairs) ==> Table(Entries())[ino] == old(Table(Entries()))[ino])
                && (ino in DirsOf(repairs) && Distinct(DirsOf(repairs)) ==>
                      Table(Entries())[ino].dotdot == old(Table(Entries()))[ino].parent)
      ensures Increasing(DirsOf(repairs)) || (|Entries()| > |old(Entries())| && OneRepeat(DirsOf(repairs)))
      ensures ROOT in old(Table(Entries())) && (entry == 0 || entry in old(Table(Entries())))
              && Distinct(DirsOf(repairs)) ==>
                Standing(Table(Entries()), DirsOf(repairs)) == Hung(old(Table(Entries())), reconnected, lostAndFound)
      ensures forall loop: set<nat>, ino :: Closed(old(Table(Entries())), loop) && ino in loop ==>
                ino !in reconnected && !Linked(Hung(old(Table(Entries())), reconnected, lostAndFound), ino)
      ensures Recorded(old(Table(Entries()))) && Homed(old(Table(Entries())), entry) ==>
                forall ino :: ino in old(Table(Entries())) ==>
                  (Linked(Hung(old(Table(Entries())), reconnected, lostAndFound), ino)
                   <==> LeadsTo(old(Table(Entries())), reconnected, ino))
      ensures Orphans(old(Table(Entries()))) <= old(dirMap) && (forall ino :: ino in offered ==> ino in reconnected) ==>
                reconnected == Orphans(old(Table(Entries())))
    {
      hide Table, Mended, Settled, Untouched, Housed, Closed, Linked, Hung, LeadsTo, Recorded,
           Homed, Orphans, Entered, Repaired, Standing, Increasing, OneRepeat, Answered, Questioned, AllAsked, Found,
           Noted, Tried;
      ghost var start, dirs := Table(Entries()), dirMap;
      calls := CheckAll(start);
      Verdict(start, done, offered, dirs);
      AllHoused(start);
      AllAnswered(start, dirs);
      if !readOnly {
        Force(start);
      }
      Consequences(start, reconnected, lostAndFound, entry);
      AllTaken(start, offered, reconnected, dirs);
      TableAfter(start, Table(Entries()), reconnected, repairs, lostAndFound, entry);
    }

    /** One step of the iteration over the table. */
    method Next(i: nat, ghost start: Tree) returns (k: int, i': nat)
      requires Sound(start) && i <= |Entries()|
      modifies db`lastLookup
      ensures Sound(start) && db.Valid() && Entries() == old(Entries())
      ensures if i < |Entries()|
              then k == i && i' == i + 1 && db.dirs[k] == Entries()[i] && Entries()[i].ino in Table(Entries())
              else k == -1 && i' == i
    {
      hide Table, Settled, Untouched, Housed, Entered, Answered, Questioned;
      if i < |Entries()| {
        TableDomain(Entries(), Entries()[i].ino);
      }
      k, i' := db.Iterate(i);
    }

    /** The loop over the directories of the table. */
    method CheckAll(ghost start: Tree) returns (calls: nat)
      requires db.Valid() && Unstarted() && start == Table(Entries())
      modifies this, db, db.dirs
      ensures db.dirs == old(db.dirs) || fresh(db.dirs)
      ensures Sound(start) && start.Keys * old(dirMap) <= done
      ensures Recorded(start) ==> AllAsked(start, start.Keys * old(dirMap), asked, reconnected)
      ensures turns <= |Entries()| + calls && calls <= |Entries()|
      ensures Increasing(DirsOf(repairs)) || (|Entries()| > |old(Entries())| && OneRepeat(DirsOf(repairs)))
    {
      hide Table, Mended, Settled, Untouched, Dealt, NoneMissed, Housed, Entered, InOrder, DirsOf, Answered, Questioned,
           Recorded, AllAsked, OnTrack, Increasing, OneRepeat, Place.Next, Odd, Sound;
      done := {ROOT};
      calls := 0;
      SoundAtStart(start);
      ghost var at, size, dirs := Nobody, |Entries()|, dirMap;
      var i, k := 0, 0;
      while true
        invariant (db.dirs == old(db.dirs) || fresh(db.dirs)) && db.Valid() && Sound(start) && dirs <= dirMap
        invariant calls <= i <= |Entries()| && turns <= Dealt(Entries(), done) + calls
        invariant size <= |Entries()| && |Entries()| + Births() <= size + 1
        invariant OnTrack(start, Entries(), i, at, size, dirs, done, asked, reconnected, repairs)
        decreases |Entries()| + Births() - i
      {
        ghost var s, done0, asked0, reconnected0, repairs0 := Entries(), done, asked, reconnected, repairs;
        k, i := Next(i, start);
        if k < 0 {
          break;
        }
        var ino := db.dirs[k].ino;
        if ino in dirMap {
          CheckDirectory(ino, start);
          calls := calls + 1;
          DirsOfSnoc(repairs0, Repair(ino, lostAndFound));
          OnTrackChecked(start, s, Entries(), i, at, size, dirs, done0, done, asked0, asked, reconnected0, reconnected,
                          repairs0, repairs);
        } else {
          OnTrackPassed(start, s, i, at, size, dirs, done, asked, reconnected, repairs);
        }
        at := at.Next(ino);
      }
      OnTrackAtEnd(start, Entries(), i, at, size, dirs, done, asked, reconnected, repairs);
      DealtBound(Entries(), done);
    }

    /** lost+found is made if it is not there; where anything hangs does not change by that. */
    method Force(ghost start: Tree)
      requires Sound(start)
      modifies this`lostAndFound, this`dirMap, db, db.dirs
      ensures db.Valid() && |old(Entries())| <= |Entries()| && (reconnected != {} ==> lostAndFound == old(lostAndFound))
      ensures lostAndFound == if old(lostAndFound) != 0 then old(lostAndFound)
                              else Noted(entry, answers.atEnd, start.Keys)
      ensures Entered(start, Table(Entries()), reconnected, repairs, lostAndFound)
      ensures Located(Table(Entries()), lostAndFound, entry)
    {
      hide Table, Settled, Untouched, Entered, Answered, Questioned, Noted, Found;
      KeysAtStart(start, Table(Entries()), reconnected, repairs, lostAndFound);
      ghost var t, lf := Table(Entries()), lostAndFound;
      var _ := GetLostAndFound(answers.atEnd);
      if lf == 0 {
        EnteredFound(start, t, Table(Entries()), repairs, lostAndFound);
      }
    }

    lemma {:induction false} SoundAtStart(start: Tree)
      requires db.Valid() && start == Table(Entries()) && done == {ROOT} && lostAndFound == 0 && !badLostAndFound
      requires offered == [] && reconnected == {} && asked == [] && repairs == []
      ensures Sound(start) && OnTrack(start, Entries(), 0, Nobody, |Entries()|, dirMap, done, asked, reconnected,
                repairs)
    {
      hide Table, Settled, Untouched, NoneMissed, Housed, Entered, InOrder, Answered, Questioned, AllAsked, OnTrack;
      Begun(start, Entries());
      NobodyHoused(start);
      NobodyAsked(start, entry, answers);
      NobodyMet(Entries());
      OnTrackAtStart(start, Entries(), dirMap, asked, repairs);
    }

    lemma {:induction false} NobodyHoused(start: Tree)
      requires reconnected == {} && lostAndFound == 0
      ensures Housed(start)
    {
    }

    lemma {:induction false} AllAnswered(start: Tree, dirs: set<nat>)
      requires Housed(start) && Answered(start, offered, reconnected, lostAndFound, badLostAndFound, entry, answers)
      requires Questioned(start, done, asked, reconnected, repairs, answers.mend)
      requires Recorded(start) ==> AllAsked(start, start.Keys * dirs, asked, reconnected)
      ensures var home := Found(entry, answers.site, start.Keys);
              forall ino :: ino in reconnected <==>
                ino in offered && answers.take(ino) && answers.fit(ino) && home != 0
      ensures lostAndFound == if Tried(offered, answers) then Noted(entry, answers.site, start.Keys) else 0
      ensures DirsOf(repairs) == Agreed(asked, answers.mend)
      ensures forall ino :: ino in asked ==> Odd(start, ino) && ino !in reconnected
      ensures Recorded(start) ==>
                forall ino :: ino in dirs && Odd(start, ino) && ino !in reconnected ==> ino in asked
    {
      hide Recorded, Found, Noted, Tried, Agreed, DirsOf;
      if Recorded(start) {
        forall ino | ino in dirs && Odd(start, ino) && ino !in reconnected ensures ino in asked {
          assert ino in start.Keys * dirs;
        }
      }
    }

    lemma {:induction false} AllHoused(start: Tree)
      requires Housed(start)
      ensures forall ino :: ino in reconnected ==> ino in offered
      ensures reconnected != {} ==> lostAndFound != 0 && (lostAndFound == entry || lostAndFound !in start)
    {
    }
  }

  lemma {:induction false} Begun(start: Tree, s: seq<Dir>)
    requires start == Table(s)
    ensures Untouched(start, Table(s), {ROOT}) && Settled(start, {ROOT}, [])
    ensures NoneMissed(s, 0, start.Keys, {}) && Entered(start, Table(s), {}, [], 0)
  {
    forall ino | ino in start.Keys ensures Ahead(s, 0, ino) {
      TableDomain(s, ino);
    }
  }

  lemma {:induction false} StillNoneMissed(s: seq<Dir>, s': seq<Dir>, i: nat, keys: set<nat>, given: set<nat>,
                                           done: set<nat>)
    requires NoneMissed(s, i, keys, given) && Mended(s, s', done)
    ensures NoneMissed(s', i, keys, given) && |s| <= |s'|
  {
  }

  lemma {:induction false} AllGiven(s: seq<Dir>, i: nat, keys: set<nat>, given: set<nat>)
    requires NoneMissed(s, i, keys, given) && i >= |s|
    ensures keys <= given
  {
    forall ino | ino in keys ensures ino in given {
      assert !Ahead(s, i, ino);
    }
  }

  lemma {:induction false} Verdict(start: Tree, done: set<nat>, offered: seq<nat>, dirs: set<nat>)
    requires Settled(start, done, offered) && start.Keys * dirs <= done
    ensures Distinct(offered)
    ensures forall ino :: ino in start && ino in dirs && ino != ROOT ==> (ino in offered <==> start[ino].parent == 0)
    ensures forall ino :: ino in offered ==> ino in Orphans(start)
  {
    forall ino | ino in start && ino in dirs && ino != ROOT ensures ino in offered <==> start[ino].parent == 0 {
      assert ino in start.Keys * dirs;
    }
  }

  // ---------------------------------------------------------------- what is connected afterwards

  /** The directories that pass 2 found no parent for. */
  ghost function Orphans(t: Tree): set<nat>
  {
    set ino | ino in t && ino != ROOT && t[ino].parent == 0
  }

  /** The directory above each one once the pass is over: lost+found for those that were linked there,
      the root for a lost+found that is new, and what it was for all others. */
  ghost function Hung(start: Tree, reconnected: set<nat>, lostAndFound: nat): map<nat, nat>
  {
    map ino | ino in (if lostAndFound == 0 then start.Keys else start.Keys + {lostAndFound}) ::
      if ino in reconnected then lostAndFound else if ino in start then start[ino].parent else ROOT
  }

  /** The directory above each one, as the table that the pass leaves has it: where a '..' was repaired
      that is the one to go by. */
  ghost function Standing(t: Tree, repaired: seq<nat>): map<nat, nat>
  {
    map ino | ino in t :: if ino in repaired then t[ino].dotdot else t[ino].parent
  }

  lemma {:induction false} TableAfter(start: Tree, now: Tree, reconnected: set<nat>, rs: seq<Repair>, lostAndFound: nat,
                                      entry: nat)
    requires Entered(start, now, reconnected, rs, lostAndFound) && Located(now, lostAndFound, entry)
    ensures forall ino :: ino in reconnected ==> ino in now && now[ino] == Links(lostAndFound, lostAndFound)
    ensures forall ino :: ino in start && ino !in reconnected ==>
              && ino in now && now[ino] == Repaired(start[ino], ino, rs)
              && (ino !in DirsOf(rs) ==> now[ino] == start[ino])
              && (ino in DirsOf(rs) && Distinct(DirsOf(rs)) ==> now[ino].dotdot == start[ino].parent)
    ensures ROOT in start && (entry == 0 || entry in start) && Distinct(DirsOf(rs)) ==>
              Standing(now, DirsOf(rs)) == Hung(start, reconnected, lostAndFound)
  {
    hide Repaired;
    forall ino | ino in start && ino !in reconnected
      ensures ino in now && now[ino] == Repaired(start[ino], ino, rs)
      ensures ino !in DirsOf(rs) ==> now[ino] == start[ino]
      ensures ino in DirsOf(rs) && Distinct(DirsOf(rs)) ==> now[ino].dotdot == start[ino].parent
    {
      assert now[ino] == Expected(start, reconnected, rs, lostAndFound, ino);
      if ino !in DirsOf(rs) {
        NotRepaired(start[ino], ino, rs);
      } else if Distinct(DirsOf(rs)) {
        RepairedOnce(start[ino], ino, rs);
      }
    }
    if ROOT in start && (entry == 0 || entry in start) && Distinct(DirsOf(rs)) {
      StandingIsHung(start, now, reconnected, rs, lostAndFound, entry);
    }
  }

  lemma {:induction false} StandingIsHung(start: Tree, now: Tree, reconnected: set<nat>, rs: seq<Repair>,
                                          lostAndFound: nat, entry: nat)
    requires Entered(start, now, reconnected, rs, lostAndFound) && Located(now, lostAndFound, entry)
    requires ROOT in start && (entry == 0 || entry in start) && Distinct(DirsOf(rs))
    ensures Standing(now, DirsOf(rs)) == Hung(start, reconnected, lostAndFound)
  {
    hide Repaired;
    var a, b := Standing(now, DirsOf(rs)), Hung(start, reconnected, lostAndFound);
    assert a.Keys == now.Keys == b.Keys;
    forall ino | ino in a ensures a[ino] == b[ino] {
      assert now[ino] == Expected(start, reconnected, rs, lostAndFound, ino);
      if ino in start && ino !in reconnected {
        if ino !in DirsOf(rs) {
          NotRepaired(start[ino], ino, rs);
        } else {
          RepairedOnce(start[ino], ino, rs);
        }
      }
    }
  }

  /** The root is `n` or fewer steps above `ino`. */
  predicate Connected(up: map<nat, nat>, ino: nat, n: nat)
    decreases n
  {
    ino == ROOT || (ino in up && up[ino] != 0 && n > 0 && Connected(up, up[ino], n - 1))
  }

  predicate ConnectedWithin(up: map<nat, nat>, ino: nat, n: nat) { Connected(up, ino, n) }

  ghost predicate Linked(up: map<nat, nat>, ino: nat)
  {
    exists n: nat :: ConnectedWithin(up, ino, n)
  }

  /** Following parents from `ino` comes to the root, or to one of `goals`, within `n` steps. */
  predicate Leads(t: Tree, goals: set<nat>, ino: nat, n: nat)
    decreases n
  {
    ino == ROOT || ino in goals || (ino in t && t[ino].parent != 0 && n > 0 && Leads(t, goals, t[ino].parent, n - 1))
  }

  predicate LeadsWithin(t: Tree, goals: set<nat>, ino: nat, n: nat) { Leads(t, goals, ino, n) }

  ghost predicate LeadsTo(t: Tree, goals: set<nat>, ino: nat)
  {
    exists n: nat :: LeadsWithin(t, goals, ino, n)
  }

  /** Directories whose parents are all among themselves. */
  ghost predicate Closed(t: Tree, loop: set<nat>)
  {
    ROOT !in loop && 0 !in loop && forall x :: x in loop ==> x in t && t[x].parent in loop
  }

  /** The parents that pass 2 recorded are directories of the table. */
  ghost predicate Recorded(t: Tree)
  {
    forall ino :: ino in t ==> t[ino].parent == 0 || t[ino].parent == ROOT || t[ino].parent in t
  }

  /** The directory that the root names lost+found has the root as its parent. */
  ghost predicate Homed(t: Tree, entry: nat)
  {
    entry in t ==> t[entry].parent == ROOT
  }

  /** A directory is in no such loop, nor leads into one, just if following parents comes to an end. */
  lemma {:induction false} LoopOrEnd(t: Tree, ino: nat)
    requires Recorded(t) && ino in t && ino != 0
    ensures !LeadsTo(t, Orphans(t), ino) <==> exists loop: set<nat> :: Closed(t, loop) && ino in loop
  {
    if loop: set<nat> :| Closed(t, loop) && ino in loop {
      forall n: nat ensures !LeadsWithin(t, Orphans(t), ino, n) {
        LoopsLeadNowhere(t, loop, ino, n);
      }
    }
    if !LeadsTo(t, Orphans(t), ino) {
      var lost := set x | x in t && x != 0 && !LeadsTo(t, Orphans(t), x);
      forall x | x in lost ensures x != ROOT && t[x].parent in lost {
        LostAbove(t, x);
      }
      assert Closed(t, lost);
    }
  }

  lemma {:induction false} LoopsLeadNowhere(t: Tree, loop: set<nat>, ino: nat, n: nat)
    requires Closed(t, loop) && ino in loop
    ensures !Leads(t, Orphans(t), ino, n)
    decreases n
  {
    if n > 0 {
      LoopsLeadNowhere(t, loop, t[ino].parent, n - 1);
    }
  }

  lemma {:induction false} LostAbove(t: Tree, ino: nat)
    requires Recorded(t) && ino in t && !LeadsTo(t, Orphans(t), ino)
    ensures ino != ROOT && t[ino].parent in t && t[ino].parent != 0 && !LeadsTo(t, Orphans(t), t[ino].parent)
  {
    var above := t[ino].parent;
    assert !LeadsWithin(t, Orphans(t), ino, 0);
    if n: nat :| LeadsWithin(t, Orphans(t), above, n) {
      assert LeadsWithin(t, Orphans(t), ino, n + 1);
    }
    assert !LeadsWithin(t, Orphans(t), above, 0);
  }

  /** Whatever orphans were reconnected, a loop stays cut off. */
  lemma {:induction false} LoopsStay(t: Tree, loop: set<nat>, reconnected: set<nat>, lostAndFound: nat, ino: nat,
                                     n: nat)
    requires Closed(t, loop) && reconnected <= Orphans(t) && ino in loop
    ensures ino !in reconnected && !Connected(Hung(t, reconnected, lostAndFound), ino, n)
    decreases n
  {
    if n > 0 {
      LoopsStay(t, loop, reconnected, lostAndFound, t[ino].parent, n - 1);
    }
  }

  lemma {:induction false} ConnectedLeads(t: Tree, reconnected: set<nat>, lostAndFound: nat, ino: nat, n: nat)
    requires Recorded(t) && (ino in t || ino == ROOT) && Connected(Hung(t, reconnected, lostAndFound), ino, n)
    ensures Leads(t, reconnected, ino, n)
    decreases n
  {
    if ino != ROOT && ino !in reconnected {
      ConnectedLeads(t, reconnected, lostAndFound, t[ino].parent, n - 1);
    }
  }

  lemma {:induction false} LeadsConnected(t: Tree, reconnected: set<nat>, lostAndFound: nat, ino: nat, n: nat)
    requires reconnected <= Orphans(t) && Leads(t, reconnected, ino, n)
    requires reconnected != {} ==> lostAndFound != 0 && (lostAndFound in t ==> t[lostAndFound].parent == ROOT)
    ensures Connected(Hung(t, reconnected, lostAndFound), ino, n + 2)
    decreases n
  {
    var up := Hung(t, reconnected, lostAndFound);
    if ino != ROOT {
      if ino in reconnected {
        assert up[ino] == lostAndFound && Connected(up, lostAndFound, 1);
        ConnectedLonger(up, lostAndFound, 1, n + 1);
      } else {
        LeadsConnected(t, reconnected, lostAndFound, t[ino].parent, n - 1);
      }
    }
  }

  lemma {:induction false} ConnectedLonger(up: map<nat, nat>, ino: nat, n: nat, n': nat)
    requires Connected(up, ino, n) && n <= n'
    ensures Connected(up, ino, n')
    decreases n
  {
    if ino != ROOT {
      ConnectedLonger(up, up[ino], n - 1, n' - 1);
    }
  }

  lemma {:induction false} LinkedMeansLeads(t: Tree, reconnected: set<nat>, lostAndFound: nat, ino: nat)
    requires reconnected <= Orphans(t) && Recorded(t) && ino in t
    requires reconnected != {} ==> lostAndFound != 0 && (lostAndFound in t ==> t[lostAndFound].parent == ROOT)
    ensures Linked(Hung(t, reconnected, lostAndFound), ino) <==> LeadsTo(t, reconnected, ino)
  {
    hide Hung, Recorded;
    var up := Hung(t, reconnected, lostAndFound);
    if n: nat :| ConnectedWithin(up, ino, n) {
      ConnectedLeads(t, reconnected, lostAndFound, ino, n);
      assert LeadsWithin(t, reconnected, ino, n);
    }
    if n: nat :| LeadsWithin(t, reconnected, ino, n) {
      LeadsConnected(t, reconnected, lostAndFound, ino, n);
      assert ConnectedWithin(up, ino, n + 2);
    }
  }

  /** What follows for the tree from what the pass did. */
  lemma {:induction false} Consequences(t: Tree, reconnected: set<nat>, lostAndFound: nat, entry: nat)
    requires reconnected <= Orphans(t)
    requires reconnected != {} ==> lostAndFound != 0 && (lostAndFound == entry || lostAndFound !in t)
    ensures forall loop: set<nat>, ino :: Closed(t, loop) && ino in loop ==>
              ino !in reconnected && !Linked(Hung(t, reconnected, lostAndFound), ino)
    ensures Recorded(t) && Homed(t, entry) ==>
              forall ino :: ino in t ==>
                (Linked(Hung(t, reconnected, lostAndFound), ino) <==> LeadsTo(t, reconnected, ino))
  {
    hide Hung, Recorded, Closed, Orphans, LeadsTo;
    var up := Hung(t, reconnected, lostAndFound);
    forall loop: set<nat>, ino | Closed(t, loop) && ino in loop ensures ino !in reconnected && !Linked(up, ino) {
      LoopsStay(t, loop, reconnected, lostAndFound, ino, 0);
      forall n: nat ensures !ConnectedWithin(up, ino, n) {
        LoopsStay(t, loop, reconnected, lostAndFound, ino, n);
      }
    }
    if Recorded(t) && Homed(t, entry) {
      forall ino | ino in t ensures Linked(up, ino) <==> LeadsTo(t, reconnected, ino) {
        LinkedMeansLeads(t, reconnected, lostAndFound, ino);
      }
    }
  }

  lemma {:induction false} AllTaken(t: Tree, offered: seq<nat>, reconnected: set<nat>, dirs: set<nat>)
    requires forall ino :: ino in reconnected ==> ino in offered
    requires forall ino :: ino in offered ==> ino in Orphans(t)
    requires forall ino :: ino in t && ino in dirs && ino != ROOT ==> (ino in offered <==> t[ino].parent == 0)
    ensures Orphans(t) <= dirs && (forall ino :: ino in offered ==> ino in reconnected) ==> reconnected == Orphans(t)
  {
  }

  /** A root, lost+found, and two directories that are each other's parents. */
  function TwoLooped(): Tree
  {
    map[ROOT := Links(ROOT, ROOT), 11 := Links(ROOT, ROOT), 12 := Links(13, 13), 13 := Links(12, 12)]
  }

  lemma {:induction false} TwoAreClosed()
    ensures Closed(TwoLooped(), {12, 13}) && Orphans(TwoLooped()) == {}
  {
  }

  lemma {:induction false} HasOne(offered: seq<nat>)
    ensures offered == [] || exists ino :: ino in offered
  {
    if offered != [] {
      assert offered[0] in offered;
    }
  }

  method LoopedTable() returns (db: DirInfoDb)
    ensures fresh(db) && fresh(db.dirs) && db.Valid() && Table(db.Contents()) == TwoLooped()
  {
    db := new DirInfoDb(4);
    assert Table(db.Contents()) == map[];
    hide Added, Table;
    db.Add(ROOT, ROOT);
    db.Add(11, ROOT);
    db.Add(12, 13);
    db.Add(13, 12);
  }

  /** Pass 3 says nothing about the two, and leaves them as cut off as they were. */
  method TwoInALoop(readOnly: bool, answers: Answers) returns (pass: Pass)
    ensures pass.offered == [] && pass.reconnected == {}
    ensures !Linked(Hung(TwoLooped(), {}, pass.lostAndFound), 12)
            && !Linked(Hung(TwoLooped(), {}, pass.lostAndFound), 13)
  {
    hide Table, Hung, Linked, Closed, Orphans, TwoLooped, Recorded, Homed, LeadsTo;
    var db := LoopedTable();
    pass := new Pass(db, {ROOT, 11, 12, 13}, 11, answers);
    var _ := pass.Run(readOnly);
    TwoAreClosed();
    assert 12 in {12, 13} && 13 in {12, 13};
    HasOne(pass.offered);
    assert forall ino :: ino !in pass.reconnected;
  }

  // ---------------------------------------------------------------- a directory that is checked twice

  lemma {:induction false} PlaceOf(s: seq<Dir>, ino: nat, k: nat)
    requires Sorted(s) && ino in Table(s) && |UpTo(Table(s).Keys, ino)| == k + 1
    ensures k < |s| && s[k].ino == ino
  {
    hide Table;
    TableDomain(s, ino);
    var j :| 0 <= j < |s| && s[j].ino == ino;
    AtLeast(s, j + 1, ino);
    AtMost(s, j + 1, ino);
  }

  /** While directory 20 is being checked lost+found is made in inode 11, and so 20 comes up again. */
  method GivenTwice() returns (first: nat, again: nat)
    ensures first == again == 20
  {
    hide Table, Added;
    var db := new DirInfoDb(3);
    NoneYet();
    db.Add(ROOT, ROOT);
    db.Add(20, 30);
    db.Add(30, 0);
    assert UpTo(Table(db.Contents()).Keys, 20) == {2, 20};
    PlaceOf(db.Contents(), 20, 1);
    var k, i := db.Iterate(1);
    first := db.dirs[k].ino;
    db.Add(11, ROOT);
    assert UpTo(Table(db.Contents()).Keys, 20) == {2, 11, 20};
    PlaceOf(db.Contents(), 20, 2);
    k, i := db.Iterate(i);
    again := db.dirs[k].ino;
  }

  lemma {:induction false} NoneYet()
    ensures Table([]) == map[]
  {
  }
}

/**
  Multiply-claimed blocks, passes 1B and 1D: which inodes hold which duplicated clusters is kept
  twice, by cluster and by inode, and from the two tables pass 1D finds the inodes that share
  something with a given one.
 */
module DupBlocks {
  import opened Bits

  const BAD_INO: nat := 1       // EXT2_BAD_INO
  const RESIZE_INO: nat := 7    // EXT2_RESIZE_INO

  /** One record: an inode was found to hold a duplicated cluster. */
  datatype Dupe = Dupe(ino: nat, cluster: nat)

  /** struct dup_cluster and struct dup_inode; the lists have their newest element first. */
  datatype DupCluster = DupCluster(numBad: nat, inodes: seq<nat>)
  datatype DupInode = DupInode(numDup: nat, clusters: seq<nat>)

  // ---------------------------------------------------------------- what the tables mean

  /** The inodes that the records `l` give for a cluster, the newest first. */
  function Holders(l: seq<Dupe>, c: nat): seq<nat>
  {
    if l == [] then []
    else
      var d, rest := l[|l| - 1], Holders(l[..|l| - 1], c);
      if d.cluster == c then [d.ino] + rest else rest
  }

  /** The clusters that the records `l` give for an inode, the newest first. */
  function Holdings(l: seq<Dupe>, ino: nat): seq<nat>
  {
    if l == [] then []
    else
      var d, rest := l[|l| - 1], Holdings(l[..|l| - 1], ino);
      if d.ino == ino then [d.cluster] + rest else rest
  }

  ghost predicate ClusterTable(t: map<nat, DupCluster>, l: seq<Dupe>)
  {
    forall c :: (c in t <==> Holders(l, c) != []) && (c in t ==> t[c] == DupCluster(|Holders(l, c)|, Holders(l, c)))
  }

  ghost predicate InodeTable(t: map<nat, DupInode>, l: seq<Dupe>)
  {
    forall i :: (i in t <==> Holdings(l, i) != []) && (i in t ==> t[i] == DupInode(|Holdings(l, i)|, Holdings(l, i)))
  }

  /** The two tables are inverse multirelations: an inode is listed for a cluster as often as the
      cluster is listed for the inode. */
  lemma {:induction false} Inverse(l: seq<Dupe>, ino: nat, c: nat)
    ensures multiset(Holders(l, c))[ino] == multiset(Holdings(l, ino))[c]
    decreases |l|
  {
    if l != [] {
      Inverse(l[..|l| - 1], ino, c);
    }
  }

  lemma {:induction false} HolderHolds(l: seq<Dupe>, ino: nat, c: nat)
    ensures ino in Holders(l, c) <==> c in Holdings(l, ino)
  {
    Inverse(l, ino, c);
    assert ino in Holders(l, c) <==> ino in multiset(Holders(l, c));
    assert c in Holdings(l, ino) <==> c in multiset(Holdings(l, ino));
  }

  lemma {:induction false} HoldersSnoc(l: seq<Dupe>, d: Dupe, c: nat)
    ensures Holders(l + [d], c) == if d.cluster == c then [d.ino] + Holders(l, c) else Holders(l, c)
  {
    assert (l + [d])[..|l|] == l;
  }

  lemma {:induction false} HoldingsSnoc(l: seq<Dupe>, d: Dupe, ino: nat)
    ensures Holdings(l + [d], ino) == if d.ino == ino then [d.cluster] + Holdings(l, ino) else Holdings(l, ino)
  {
    assert (l + [d])[..|l|] == l;
  }

  lemma {:induction false} HoldingsIn(l: seq<Dupe>, ino: nat, c: nat)
    ensures c in Holdings(l, ino) <==> Dupe(ino, c) in l
    decreases |l|
  {
    if l != [] {
      HoldingsIn(l[..|l| - 1], ino, c);
      assert l == l[..|l| - 1] + [l[|l| - 1]];
    }
  }

  lemma {:induction false} HoldersIn(l: seq<Dupe>, ino: nat, c: nat)
    ensures ino in Holders(l, c) <==> Dupe(ino, c) in l
  {
    HolderHolds(l, ino, c);
    HoldingsIn(l, ino, c);
  }

  // ---------------------------------------------------------------- files and their clusters

  /** A block of a file, with its place in it; the places of a file's own metadata are negative. */
  datatype Use = Use(logical: int, block: nat)

  datatype File = File(ino: nat, uses: seq<Use>)

  /** EXT2FS_B2C */
  function ToCluster(block: nat, ratio: nat): (c: nat)
    requires ratio > 0
    ensures c * ratio <= block < (c + 1) * ratio
  {
    QuotientNatural(block, ratio);
    block / ratio
  }

  lemma {:induction false} QuotientNatural(a: nat, b: nat)
    requires b > 0
    ensures a / b >= 0
  {
    var q := a / b;
    assert a == b * q + a % b < b * (q + 1);
    assert q + 1 > 0;
  }

  /** Some of the first `n` blocks of a file lie in cluster `c`. */
  ghost predicate UsesCluster(f: File, n: nat, ratio: nat, c: int)
    requires n <= |f.uses| && ratio > 0
  {
    exists k :: 0 <= k < n && InCluster(f, k, ratio, c)
  }

  predicate InCluster(f: File, k: nat, ratio: nat, c: int)
    requires k < |f.uses| && ratio > 0
  {
    f.uses[k].block != 0 && ToCluster(f.uses[k].block, ratio) == c
  }

  lemma {:induction false} UsesOneMore(f: File, n: nat, ratio: nat, c: int)
    requires n < |f.uses| && ratio > 0
    ensures UsesCluster(f, n + 1, ratio, c) <==> UsesCluster(f, n, ratio, c) || InCluster(f, n, ratio, c)
  {
    if UsesCluster(f, n, ratio, c) {
      var k :| 0 <= k < n && InCluster(f, k, ratio, c);
      assert InCluster(f, k, ratio, c);
    }
  }

  /** Inode `ino` is that of one of the files, and the file has a block in cluster `c`. */
  ghost predicate Claims(files: seq<File>, ratio: nat, ino: nat, c: int)
    requires ratio > 0
  {
    exists k :: 0 <= k < |files| && files[k].ino == ino && UsesCluster(files[k], |files[k].uses|, ratio, c)
  }

  lemma {:induction false} ClaimsSnoc(files: seq<File>, f: File, ratio: nat, ino: nat, c: int)
    requires ratio > 0
    ensures Claims(files + [f], ratio, ino, c) <==>
              Claims(files, ratio, ino, c) || (f.ino == ino && UsesCluster(f, |f.uses|, ratio, c))
  {
    var all := files + [f];
    if Claims(files, ratio, ino, c) {
      var k :| 0 <= k < |files| && files[k].ino == ino && UsesCluster(files[k], |files[k].uses|, ratio, c);
      assert all[k] == files[k];
    }
    if f.ino == ino && UsesCluster(f, |f.uses|, ratio, c) {
      assert all[|files|] == f;
    }
    if Claims(all, ratio, ino, c) {
      var k :| 0 <= k < |all| && all[k].ino == ino && UsesCluster(all[k], |all[k].uses|, ratio, c);
      assert k < |files| ==> files[k] == all[k];
    }
  }

  /** Exactly the duplicated clusters of the first `n` blocks of `f` were added to the records. */
  ghost predicate Noted(l0: seq<Dupe>, l: seq<Dupe>, f: File, n: nat, ratio: nat, dup: set<nat>)
    requires n <= |f.uses| && ratio > 0
  {
    forall ino, c: nat :: Dupe(ino, c) in l <==>
      Dupe(ino, c) in l0 || (ino == f.ino && c in dup && UsesCluster(f, n, ratio, c))
  }

  /** Exactly the duplicated clusters of the files are on record. */
  ghost predicate Complete(l: seq<Dupe>, files: seq<File>, ratio: nat, dup: set<nat>)
    requires ratio > 0
  {
    forall ino, c: nat :: Dupe(ino, c) in l <==> c in dup && Claims(files, ratio, ino, c)
  }

  lemma {:induction false} CompleteSnoc(l0: seq<Dupe>, l: seq<Dupe>, files: seq<File>, f: File, ratio: nat,
                                        dup: set<nat>)
    requires ratio > 0 && Complete(l0, files, ratio, dup) && Noted(l0, l, f, |f.uses|, ratio, dup)
    ensures Complete(l, files + [f], ratio, dup)
  {
    forall ino, c: nat ensures Dupe(ino, c) in l <==> c in dup && Claims(files + [f], ratio, ino, c) {
      ClaimsSnoc(files, f, ratio, ino, c);
    }
  }

  // ---------------------------------------------------------------- sharing

  /** Inode `j` holds one of the first `k` clusters of `cs` as well. */
  ghost predicate Meets(l: seq<Dupe>, cs: seq<nat>, k: nat, j: nat)
    requires k <= |cs|
  {
    exists x :: 0 <= x < k && j in Holders(l, cs[x])
  }

  lemma {:induction false} MeetsOneMore(l: seq<Dupe>, cs: seq<nat>, k: nat, j: nat)
    requires k < |cs|
    ensures Meets(l, cs, k + 1, j) <==> Meets(l, cs, k, j) || j in Holders(l, cs[k])
  {
    hide Holders;
    if Meets(l, cs, k, j) {
      var x :| 0 <= x < k && j in Holders(l, cs[x]);
    }
  }

  /** Two inodes hold a duplicated cluster in common. */
  ghost predicate Share(l: seq<Dupe>, ino: nat, j: nat)
  {
    exists c :: Dupe(ino, c) in l && Dupe(j, c) in l
  }

  lemma {:induction false} MeetsIsShare(l: seq<Dupe>, ino: nat, j: nat)
    ensures Meets(l, Holdings(l, ino), |Holdings(l, ino)|, j) <==> Share(l, ino, j)
  {
    hide Holders, Holdings;
    var cs := Holdings(l, ino);
    if Meets(l, cs, |cs|, j) {
      var x :| 0 <= x < |cs| && j in Holders(l, cs[x]);
      HoldingsIn(l, ino, cs[x]);
      HoldersIn(l, j, cs[x]);
    }
    if Share(l, ino, j) {
      var c :| Dupe(ino, c) in l && Dupe(j, c) in l;
      HoldingsIn(l, ino, c);
      HoldersIn(l, j, c);
      var x :| 0 <= x < |cs| && cs[x] == c;
    }
  }

  // ---------------------------------------------------------------- what is submitted

  /** The last block of the file before place `k`, -1 if there is none. */
  function Before(f: File, k: nat): (p: int)
    requires k <= |f.uses|
    ensures -1 <= p < k
  {
    if k == 0 then -1 else if f.uses[k - 1].block != 0 then k - 1 else Before(f, k - 1)
  }

  predicate IsDuplicate(f: File, k: nat, ratio: nat, dup: set<nat>)
    requires k < |f.uses| && ratio > 0
  {
    f.uses[k].block != 0 && ToCluster(f.uses[k].block, ratio) in dup
  }

  /** A duplicated block is submitted if it is metadata of the file or the first of a cluster: the block
      before it lies in another cluster of the file or of the disk. */
  predicate Submits(f: File, k: nat, ratio: nat, dup: set<nat>)
    requires k < |f.uses| && ratio > 0
  {
    && IsDuplicate(f, k, ratio, dup)
    && (f.uses[k].logical < 0 || Before(f, k) == -1
        || var u, v := f.uses[k], f.uses[Before(f, k)];
           u.logical / ratio != v.logical / ratio || ToCluster(u.block, ratio) != ToCluster(v.block, ratio))
  }

  /** The records that the first `n` places of a file give rise to. */
  function Submitted(f: File, n: nat, ratio: nat, dup: set<nat>): seq<Dupe>
    requires n <= |f.uses| && ratio > 0
  {
    if n == 0 then []
    else Submitted(f, n - 1, ratio, dup)
         + if Submits(f, n - 1, ratio, dup) then [Dupe(f.ino, ToCluster(f.uses[n - 1].block, ratio))] else []
  }

  /** How many of them are duplicated. */
  function Duplicated(f: File, n: nat, ratio: nat, dup: set<nat>): nat
    requires n <= |f.uses| && ratio > 0
  {
    if n == 0 then 0 else Duplicated(f, n - 1, ratio, dup) + if IsDuplicate(f, n - 1, ratio, dup) then 1 else 0
  }

  // ---------------------------------------------------------------- the code

  class Dupes {
    var clusters: map<nat, DupCluster>   // clstr_dict
    var inodes: map<nat, DupInode>       // ino_dict
    ghost var records: seq<Dupe>

    ghost predicate Valid()
      reads this
    {
      ClusterTable(clusters, records) && InodeTable(inodes, records)
    }

    constructor ()
      ensures Valid() && records == []
    {
      clusters, inodes, records := map[], map[], [];
    }

    /** add_dupe: both tables gain the record, and their counts stay exact. */
    method AddDupe(ino: nat, cluster: nat)
      requires Valid()
      modifies this
      ensures Valid() && records == old(records) + [Dupe(ino, cluster)]
    {
      hide Holders, Holdings;
      ghost var d, l := Dupe(ino, cluster), records;
      var db := if cluster in clusters then clusters[cluster] else DupCluster(0, []);
      clusters := clusters[cluster := DupCluster(db.numBad + 1, [ino] + db.inodes)];
      var di := if ino in inodes then inodes[ino] else DupInode(0, []);
      inodes := inodes[ino := DupInode(di.numDup + 1, [cluster] + di.clusters)];
      records := records + [d];
      forall c ensures Holders(records, c) == if cluster == c then [ino] + Holders(l, c) else Holders(l, c) {
        HoldersSnoc(l, d, c);
      }
      forall i ensures Holdings(records, i) == if ino == i then [cluster] + Holdings(l, i) else Holdings(l, i) {
        HoldingsSnoc(l, d, i);
      }
    }

    /** process_pass1b_block for all the blocks of an inode.  A block is not submitted if it lies in
        the same cluster as the one before it.  The map of duplicates is kept by cluster. */
    method ScanFile(f: File, ratio: nat, dup: set<nat>) returns (dupBlocks: nat)
      requires Valid() && ratio > 0
      modifies this
      ensures Valid() && Noted(old(records), records, f, |f.uses|, ratio, dup)
      ensures records == old(records) + Submitted(f, |f.uses|, ratio, dup)
      ensures dupBlocks == Duplicated(f, |f.uses|, ratio, dup)
    {
      hide Holders, Holdings, ClusterTable, InodeTable, UsesCluster;
      dupBlocks := 0;
      var curCluster: int, physCluster: int := -1, -1;
      NotedNone(records, f, ratio, dup);
      for i := 0 to |f.uses|
        invariant Valid() && Noted(old(records), records, f, i, ratio, dup)
        invariant physCluster == -1 || UsesCluster(f, i, ratio, physCluster)
        invariant records == old(records) + Submitted(f, i, ratio, dup) && dupBlocks == Duplicated(f, i, ratio, dup)
        invariant if Before(f, i) == -1 then physCluster == -1
                  else var v := f.uses[Before(f, i)];
                       curCluster == v.logical / ratio && physCluster == ToCluster(v.block, ratio)
      {
        var use := f.uses[i];
        ghost var l := records;
        if use.block == 0 {
          NotedNext(old(records), l, l, f, i, ratio, dup);
          Unused(f, i, ratio, physCluster);
          continue;
        }
        var lc: int, pc: nat := use.logical / ratio, ToCluster(use.block, ratio);
        UsesOneMore(f, i, ratio, pc);
        if pc in dup {
          dupBlocks := dupBlocks + 1;
          if use.logical < 0 || lc != curCluster || pc != physCluster {
            AddDupe(f.ino, pc);
          }
        }
        NotedNext(old(records), l, records, f, i, ratio, dup);
        curCluster, physCluster := lc, pc;
      }
    }

    /** The loop of pass 1B over the inodes in use. */
    method ScanFiles(files: seq<File>, ratio: nat, dup: set<nat>)
      requires Valid() && records == [] && ratio > 0
      modifies this
      ensures Valid() && Complete(records, files, ratio, dup)
    {
      hide Noted;
      for i := 0 to |files|
        invariant Valid() && Complete(records, files[..i], ratio, dup)
      {
        ghost var l := records;
        var n := ScanFile(files[i], ratio, dup);
        CompleteSnoc(l, records, files[..i], files[i], ratio, dup);
        assert files[..i + 1] == files[..i] + [files[i]];
      }
      assert files[..|files|] == files;
    }

    /** Is the inode in the list already? */
    method Listed(shared: array<nat>, n: nat, j: nat) returns (found: bool)
      requires n <= shared.Length
      ensures found <==> j in shared[..n]
    {
      for i := 0 to n
        invariant j !in shared[..i]
      {
        if shared[i] == j {
          return true;
        }
      }
      return false;
    }

    /** Add the inodes that hold a cluster to the list, each once, leaving out `ino` itself. */
    method Merge(holders: seq<nat>, ino: nat, shared: array<nat>, n: nat, ghost keys: set<nat>) returns (n': nat)
      requires n <= shared.Length == |keys| && ino in keys && Distinct(shared[..n])
      requires (forall j :: j in shared[..n] ==> j in keys && j != ino) && forall j :: j in holders ==> j in keys
      modifies shared
      ensures n' <= shared.Length && Distinct(shared[..n'])
      ensures forall j :: j in shared[..n'] <==> j in old(shared[..n]) || (j != ino && j in holders)
    {
      n' := n;
      ghost var was := shared[..n];
      for i := 0 to |holders|
        invariant n' <= shared.Length && Distinct(shared[..n'])
        invariant forall j :: j in shared[..n'] <==> j in was || (j != ino && j in holders[..i])
      {
        var j := holders[i];
        assert holders[..i + 1] == holders[..i] + [j];
        if j != ino {
          var found := Listed(shared, n', j);
          if !found {
            DistinctFits(shared[..n'] + [j], keys - {ino});
            ghost var now := shared[..n'];
            shared[n'] := j;
            n' := n' + 1;
            assert shared[..n'] == now + [j];
          }
        }
      }
      assert holders[..|holders|] == holders;
    }

    /** The inner part of pass 1D: `shared` gets exactly the other inodes that hold a duplicated
        cluster of `ino`, each once, and never outgrows its room for one entry per inode on record. */
    method FindShared(ino: nat, shared: array<nat>, fsClusters: set<nat>, metaData: bool)
      returns (n: nat, metaData': bool)
      requires Valid() && ino in inodes && shared.Length == |inodes.Keys|
      modifies shared
      ensures n < shared.Length && Distinct(shared[..n])
      ensures forall j :: j in shared[..n] <==> j != ino && Share(records, ino, j)
      ensures metaData' <==> metaData || OnMetaData(records, ino, fsClusters)
    {
      hide Holders, Holdings;
      var cs := inodes[ino].clusters;
      n, metaData' := 0, metaData;
      for k := 0 to |cs|
        invariant n <= shared.Length && Distinct(shared[..n])
        invariant forall j :: j in shared[..n] <==> j != ino && Meets(records, cs, k, j)
        invariant metaData' <==> metaData || exists x :: 0 <= x < k && cs[x] in fsClusters
      {
        var c := cs[k];
        OnRecord(records, ino, k);
        if c in fsClusters {
          metaData' := true;
        }
        forall j ensures Meets(records, cs, k + 1, j) <==> Meets(records, cs, k, j) || j in Holders(records, c) {
          MeetsOneMore(records, cs, k, j);
        }
        AllOnRecord(records, inodes, c);
        AllMet(records, inodes, cs, k);
        n := Merge(clusters[c].inodes, ino, shared, n, inodes.Keys);
      }
      forall j ensures Meets(records, cs, |cs|, j) <==> Share(records, ino, j) {
        MeetsIsShare(records, ino, j);
      }
      AllMet(records, inodes, cs, |cs|);
      DistinctFits(shared[..n], inodes.Keys - {ino});
    }

    /** The loop of pass 1D, over the inodes on record in ascending order, as far as what it reports:
        for every inode the others it shares with, and whether with metadata too.  The latter flag
        is never reset. */
    method Report(keys: seq<nat>, fsClusters: set<nat>) returns (reports: seq<Finding>)
      requires Valid() && forall ino :: ino in keys ==> ino in inodes
      ensures Inos(reports) == Wanted(keys)
      ensures forall k :: 0 <= k < |reports| ==> Right(records, reports, k, fsClusters)
    {
      hide Holders, Holdings, Right, ClusterTable, InodeTable, MetaSoFar, Share;
      var shared := new nat[|inodes.Keys|];
      var metaData := false;
      reports := [];
      NoMeta(records, fsClusters);
      for i := 0 to |keys|
        invariant Inos(reports) == Wanted(keys[..i])
        invariant forall k :: 0 <= k < |reports| ==> Right(records, reports, k, fsClusters)
        invariant metaData <==> MetaSoFar(records, reports, |reports|, fsClusters)
      {
        WantedSnoc(keys[..i], keys[i]);
        assert keys[..i + 1] == keys[..i] + [keys[i]];
        var ino := keys[i];
        if ino == BAD_INO || ino == RESIZE_INO {
          continue;
        }
        var n;
        n, metaData := FindShared(ino, shared, fsClusters, metaData);
        OneMoreFinding(records, reports, Finding(ino, shared[..n], metaData), fsClusters);
        reports := reports + [Finding(ino, shared[..n], metaData)];
      }
      assert keys[..|keys|] == keys;
    }
  }

  /** What pass 1D reports of an inode. */
  datatype Finding = Finding(ino: nat, shared: seq<nat>, metaData: bool)

  function Inos(reports: seq<Finding>): seq<nat>
  {
    seq(|reports|, i requires 0 <= i < |reports| => reports[i].ino)
  }

  /** One of the first `n` inodes reported on holds metadata. */
  ghost predicate MetaSoFar(l: seq<Dupe>, reports: seq<Finding>, n: nat, fsClusters: set<nat>)
    requires n <= |reports|
  {
    exists x :: 0 <= x < n && OnMetaData(l, reports[x].ino, fsClusters)
  }

  /** The inodes listed are exactly the others that share a duplicated cluster, each once; metadata
      is reported if this inode or one before it holds some. */
  ghost predicate Right(l: seq<Dupe>, reports: seq<Finding>, k: nat, fsClusters: set<nat>)
    requires k < |reports|
  {
    && Distinct(reports[k].shared)
    && (forall j :: j in reports[k].shared <==> j != reports[k].ino && Share(l, reports[k].ino, j))
    && (reports[k].metaData <==> MetaSoFar(l, reports, k + 1, fsClusters))
  }

  lemma {:induction false} NoMeta(l: seq<Dupe>, fsClusters: set<nat>)
    ensures !MetaSoFar(l, [], 0, fsClusters)
  {
  }

  lemma {:induction false} MetaPrefix(l: seq<Dupe>, reports: seq<Finding>, f: Finding, n: nat, fsClusters: set<nat>)
    requires n <= |reports|
    ensures MetaSoFar(l, reports + [f], n, fsClusters) <==> MetaSoFar(l, reports, n, fsClusters)
  {
    hide OnMetaData;
    var all := reports + [f];
    if MetaSoFar(l, reports, n, fsClusters) {
      var x :| 0 <= x < n && OnMetaData(l, reports[x].ino, fsClusters);
      assert OnMetaData(l, all[x].ino, fsClusters);
    }
    if MetaSoFar(l, all, n, fsClusters) {
      var x :| 0 <= x < n && OnMetaData(l, all[x].ino, fsClusters);
      assert OnMetaData(l, reports[x].ino, fsClusters);
    }
  }

  lemma {:induction false} MetaLast(l: seq<Dupe>, reports: seq<Finding>, f: Finding, fsClusters: set<nat>)
    ensures MetaSoFar(l, reports + [f], |reports| + 1, fsClusters) <==>
            MetaSoFar(l, reports, |reports|, fsClusters) || OnMetaData(l, f.ino, fsClusters)
  {
    hide OnMetaData;
    var all := reports + [f];
    MetaPrefix(l, reports, f, |reports|, fsClusters);
    assert all[|reports|] == f;
    if MetaSoFar(l, all, |reports| + 1, fsClusters) {
      var x :| 0 <= x < |reports| + 1 && OnMetaData(l, all[x].ino, fsClusters);
    }
    if MetaSoFar(l, all, |reports|, fsClusters) {
      var x :| 0 <= x < |reports| && OnMetaData(l, all[x].ino, fsClusters);
      assert OnMetaData(l, all[x].ino, fsClusters);
    }
  }

  lemma {:induction false} OneMoreFinding(l: seq<Dupe>, reports: seq<Finding>, f: Finding, fsClusters: set<nat>)
    requires forall k :: 0 <= k < |reports| ==> Right(l, reports, k, fsClusters)
    requires Distinct(f.shared) && forall j :: j in f.shared <==> j != f.ino && Share(l, f.ino, j)
    requires f.metaData <==> MetaSoFar(l, reports, |reports|, fsClusters) || OnMetaData(l, f.ino, fsClusters)
    ensures forall k :: 0 <= k < |reports| + 1 ==> Right(l, reports + [f], k, fsClusters)
    ensures f.metaData <==> MetaSoFar(l, reports + [f], |reports| + 1, fsClusters)
    ensures Inos(reports + [f]) == Inos(reports) + [f.ino]
  {
    hide OnMetaData, MetaSoFar, Share;
    MetaLast(l, reports, f, fsClusters);
    forall k | 0 <= k < |reports| + 1 ensures Right(l, reports + [f], k, fsClusters) {
      if k < |reports| {
        assert Right(l, reports, k, fsClusters);
        MetaPrefix(l, reports, f, k + 1, fsClusters);
      }
    }
  }

  /** Nothing is asked about the bad blocks and resize inodes. */
  function Wanted(keys: seq<nat>): seq<nat>
  {
    if keys == [] then []
    else
      var rest, ino := Wanted(keys[..|keys| - 1]), keys[|keys| - 1];
      if ino == BAD_INO || ino == RESIZE_INO then rest else rest + [ino]
  }

  lemma {:induction false} WantedSnoc(keys: seq<nat>, ino: nat)
    ensures Wanted(keys + [ino]) == if ino == BAD_INO || ino == RESIZE_INO then Wanted(keys) else Wanted(keys) + [ino]
  {
    assert (keys + [ino])[..|keys|] == keys;
  }

  /** What is reported of metadata is true of the inode itself if and only if the inode holds some,
      or none reported before it did. */
  lemma {:induction false} MetaDataIsSticky(l: seq<Dupe>, reports: seq<Finding>, fsClusters: set<nat>, k: nat)
    requires k < |reports| && Right(l, reports, k, fsClusters)
    ensures (reports[k].metaData <==> OnMetaData(l, reports[k].ino, fsClusters)) <==>
            OnMetaData(l, reports[k].ino, fsClusters) || !MetaSoFar(l, reports, k, fsClusters)
  {
    hide OnMetaData, Share;
    if MetaSoFar(l, reports, k, fsClusters) {
      var x :| 0 <= x < k && OnMetaData(l, reports[x].ino, fsClusters);
    }
  }

  /** Inode 12 holds a cluster of metadata, and 13 and 14 share one that is none. */
  function Three(): seq<Dupe>
  {
    [Dupe(12, 5), Dupe(13, 100), Dupe(14, 100)]
  }

  lemma {:induction false} ThreeHold(ino: nat)
    requires ino == 12 || ino == 13
    ensures Holdings(Three(), ino) == [if ino == 12 then 5 else 100] && (OnMetaData(Three(), ino, {5}) <==> ino == 12)
  {
    var one, two := [Dupe(12, 5)], [Dupe(12, 5), Dupe(13, 100)];
    assert Three() == two + [Dupe(14, 100)] && two == one + [Dupe(13, 100)] && one == [] + [Dupe(12, 5)];
    HoldingsSnoc([], Dupe(12, 5), ino);
    HoldingsSnoc(one, Dupe(13, 100), ino);
    HoldingsSnoc(two, Dupe(14, 100), ino);
    if ino == 12 {
      assert Holdings(Three(), ino)[0] in {5};
    }
  }

  lemma {:induction false} BothWanted()
    ensures Wanted([12, 13]) == [12, 13]
  {
    WantedSnoc([], 12);
    WantedSnoc([12], 13);
    assert [] + [12] == [12] && [12] + [13] == [12, 13];
  }

  /** After a report on the first, metadata is reported of the second, which holds none. */
  method ReportThree() returns (reports: seq<Finding>)
    ensures |reports| == 2 && reports[1].ino == 13 && reports[1].metaData && !OnMetaData(Three(), 13, {5})
  {
    hide Holders, Holdings, OnMetaData, Share, Wanted;
    var d := new Dupes();
    d.AddDupe(12, 5);
    d.AddDupe(13, 100);
    d.AddDupe(14, 100);
    assert d.records == Three();
    ThreeHold(12);
    ThreeHold(13);
    reports := d.Report([12, 13], {5});
    BothWanted();
    assert Inos(reports)[0] == 12 && Inos(reports)[1] == 13;
    assert MetaSoFar(Three(), reports, 2, {5}) && Right(Three(), reports, 1, {5});
  }

  /** With the records complete, to share is to claim a duplicated cluster in common. */
  lemma {:induction false} ShareIsCommonClaim(l: seq<Dupe>, files: seq<File>, ratio: nat, dup: set<nat>, ino: nat,
                                              j: nat)
    requires ratio > 0 && Complete(l, files, ratio, dup)
    ensures Share(l, ino, j) <==>
              exists c: nat :: c in dup && Claims(files, ratio, ino, c) && Claims(files, ratio, j, c)
  {
    hide Claims;
    if Share(l, ino, j) {
      var c: nat :| Dupe(ino, c) in l && Dupe(j, c) in l;
      assert c in dup && Claims(files, ratio, ino, c) && Claims(files, ratio, j, c);
    }
    if c: nat :| c in dup && Claims(files, ratio, ino, c) && Claims(files, ratio, j, c) {
      assert Dupe(ino, c) in l && Dupe(j, c) in l;
    }
  }

  /** The inode holds a cluster of the file system's own. */
  ghost predicate OnMetaData(l: seq<Dupe>, ino: nat, fsClusters: set<nat>)
  {
    exists x :: 0 <= x < |Holdings(l, ino)| && Holdings(l, ino)[x] in fsClusters
  }

  lemma {:induction false} OnRecord(l: seq<Dupe>, ino: nat, k: nat)
    requires k < |Holdings(l, ino)|
    ensures Holders(l, Holdings(l, ino)[k]) != []
  {
    HolderHolds(l, ino, Holdings(l, ino)[k]);
  }

  lemma {:induction false} AllOnRecord(l: seq<Dupe>, t: map<nat, DupInode>, c: nat)
    requires InodeTable(t, l)
    ensures forall j :: j in Holders(l, c) ==> j in t
  {
    hide Holders, Holdings;
    forall j | j in Holders(l, c) ensures j in t {
      HolderHolds(l, j, c);
    }
  }

  lemma {:induction false} AllMet(l: seq<Dupe>, t: map<nat, DupInode>, cs: seq<nat>, k: nat)
    requires InodeTable(t, l) && k <= |cs|
    ensures forall j :: Meets(l, cs, k, j) ==> j in t
  {
    hide Holders, Holdings;
    forall j | Meets(l, cs, k, j) ensures j in t {
      var x :| 0 <= x < k && j in Holders(l, cs[x]);
      HolderHolds(l, j, cs[x]);
    }
  }

  lemma {:induction false} NotedNone(l: seq<Dupe>, f: File, ratio: nat, dup: set<nat>)
    requires ratio > 0
    ensures Noted(l, l, f, 0, ratio, dup)
  {
  }

  lemma {:induction false} Unused(f: File, n: nat, ratio: nat, c: int)
    requires n < |f.uses| && ratio > 0 && f.uses[n].block == 0
    ensures UsesCluster(f, n + 1, ratio, c) <==> UsesCluster(f, n, ratio, c)
  {
    UsesOneMore(f, n, ratio, c);
  }

  /** One block on: its cluster has been added, or was there already, or is no duplicate. */
  lemma {:induction false} NotedNext(l0: seq<Dupe>, l: seq<Dupe>, l': seq<Dupe>, f: File, n: nat, ratio: nat,
                                     dup: set<nat>)
    requires n < |f.uses| && ratio > 0 && Noted(l0, l, f, n, ratio, dup)
    requires var b, c := f.uses[n].block, ToCluster(f.uses[n].block, ratio);
             || (l' == l && (b == 0 || c !in dup || UsesCluster(f, n, ratio, c)))
             || (l' == l + [Dupe(f.ino, c)] && b != 0 && c in dup)
    ensures Noted(l0, l', f, n + 1, ratio, dup)
  {
    hide UsesCluster;
    forall ino, c: nat ensures Dupe(ino, c) in l' <==>
      Dupe(ino, c) in l0 || (ino == f.ino && c in dup && UsesCluster(f, n + 1, ratio, c))
    {
      UsesOneMore(f, n, ratio, c);
    }
  }
}

/**
 Advancing a pinned runtime tree file by file: the originals are first published as a backup, then one file
 after another is replaced, and every step is checked against the chain of trees it must go through.
 */
module FixedMigration {
  import opened Outcomes
  import opened Text

  type Path = string
  type Bytes = string

  datatype File = File(mode: nat, body: Bytes)

  /** What a pinned manifest says of a file. */
  datatype Item = Item(mode: nat, size: nat, sha: string)

  type Tree = map<Path, File>
  type Manifest = map<Path, Item>

  datatype Inspection = Absent | Partial | Exact | Bad

  function Describe(digest: Bytes -> string, file: File): Item { Item(file.mode, |file.body|, digest(file.body)) }

  /** With digests that tell contents apart a manifest tells a file from any other. */
  lemma DescribeTells(digest: Bytes -> string, a: File, b: File)
    requires forall x: Bytes, y: Bytes {:trigger digest(x), digest(y)} :: digest(x) == digest(y) ==> x == y
    requires Describe(digest, a) == Describe(digest, b)
    ensures a == b
  {
  }

  function DescribeTree(digest: Bytes -> string, tree: Tree): Manifest {
    map path | path in tree :: Describe(digest, tree[path])
  }

  /** `inspect_fixed_runtime`: the tree, a part of it, nothing, or something else. */
  function Inspect(digest: Bytes -> string, tree: Option<Tree>, entries: Manifest): Inspection {
    if tree.None? then Absent
    else if DescribeTree(digest, tree.value) == entries then Exact
    else if forall path :: path in tree.value ==>
              path in entries && Describe(digest, tree.value[path]) == entries[path] then
      Partial
    else Bad
  }

  /** What an inspection sees, file by file. */
  lemma InspectTells(digest: Bytes -> string, tree: Tree, entries: Manifest)
    ensures var seen := Inspect(digest, Some(tree), entries);
            && (seen in {Exact, Partial} <==>
                  forall path :: path in tree ==>
                    path in entries && entries[path] == Describe(digest, tree[path]))
            && (seen == Exact ==> tree.Keys == entries.Keys)
            && (seen == Partial ==> tree.Keys != entries.Keys)
  {
    if forall path :: path in tree ==> path in entries && entries[path] == Describe(digest, tree[path]) {
      if tree.Keys == entries.Keys {
        assert DescribeTree(digest, tree) == entries;
      }
    }
  }

  /** What is migrated: from a pinned tree, some of its files in order, to the new files. */
  datatype Plan = Plan(
    digest: Bytes -> string, current: Manifest, entries: Manifest, order: seq<Path>, source: map<Path, Bytes>,
    ghost original: Tree)
  {
    /** The checks `_migrate_fixed_generation` makes before it looks at the server. */
    predicate Admissible() {
      && order != [] && current.Keys == entries.Keys
      && (forall path :: path in entries && path !in order ==> current[path] == entries[path])
      && (forall path :: path in order ==> path in current)
    }

    /** The manifests are those of the original tree and of the new files. */
    ghost predicate Pinned() {
      && DescribeTree(digest, original) == current
      && (forall path :: path in order ==>
            path in source && path in entries
              && Describe(digest, File(entries[path].mode, source[path])) == entries[path])
    }

    /** The manifest after the first k replacements. */
    function Prefix(k: nat): Manifest
      requires k <= |order| && forall path :: path in order ==> path in entries
    {
      if k == 0 then current else Prefix(k - 1)[order[k - 1] := entries[order[k - 1]]]
    }

    /** The tree after the first k replacements. */
    ghost function PrefixTree(k: nat): Tree
      requires k <= |order| && forall path :: path in order ==> path in entries && path in source
    {
      if k == 0 then original
      else PrefixTree(k - 1)[order[k - 1] := File(entries[order[k - 1]].mode, source[order[k - 1]])]
    }

    /** One of the trees the migration goes through. */
    ghost predicate InChain(tree: Tree) {
      Admissible() && Pinned() && exists k: nat :: k <= |order| && tree == PrefixTree(k)
    }

    /** The original files that are to be replaced. */
    function BackupEntries(): Manifest {
      map path | path in current && path in order :: current[path]
    }

    ghost function Backup(): Tree {
      map path | path in original && path in order :: original[path]
    }

    ghost predicate PartOfBackup(tree: Tree) {
      forall path :: path in tree ==> path in Backup() && tree[path] == Backup()[path]
    }

    lemma PartGrows(tree: Tree, path: Path)
      requires PartOfBackup(tree) && path in Backup()
      ensures PartOfBackup(tree[path := Backup()[path]])
    {
      hide Backup;
    }

    lemma WholeBackup(tree: Tree)
      requires PartOfBackup(tree) && tree.Keys == Backup().Keys
      ensures tree == Backup()
    {
      hide Backup;
    }

    lemma {:induction false} PrefixDescribes(k: nat)
      requires Admissible() && Pinned() && k <= |order|
      ensures DescribeTree(digest, PrefixTree(k)) == Prefix(k)
    {
      if k > 0 {
        PrefixDescribes(k - 1);
        var path := order[k - 1];
        assert PrefixTree(k).Keys == PrefixTree(k - 1).Keys + {path};
      }
    }

    lemma BackupDescribes()
      requires Admissible() && Pinned()
      ensures DescribeTree(digest, Backup()) == BackupEntries() && Backup().Keys == set path | path in order
    {
      assert forall path :: path in original <==> path in DescribeTree(digest, original);
    }

    /**
     Only files in the order differ from the original, so the backup laid over any of the trees gives the original.
     */
    lemma {:induction false} BackupRestores(k: nat)
      requires Admissible() && Pinned() && k <= |order|
      ensures PrefixTree(k) + Backup() == original
    {
      BackupDescribes();
      assert original.Keys == DescribeTree(digest, original).Keys;
      if k > 0 {
        BackupRestores(k - 1);
        var before, after, path := PrefixTree(k - 1), PrefixTree(k), order[k - 1];
        assert path in Backup();
        assert after + Backup() == before + Backup();
      }
    }

    /** Files that are still to be replaced are the originals. */
    lemma {:induction false} PrefixKeeps(k: nat, path: Path)
      requires Admissible() && Pinned() && k <= |order| && path in original
      requires forall j :: 0 <= j < k ==> order[j] != path
      ensures path in PrefixTree(k) && PrefixTree(k)[path] == original[path]
    {
      if k > 0 {
        PrefixKeeps(k - 1, path);
      }
    }

    /** Each file is replaced once, by one that the manifest tells from the old one. */
    predicate Distinguishable() {
      && (forall i, j :: 0 <= i < j < |order| ==> order[i] != order[j])
      && (forall path :: path in order && path in current && path in entries ==> current[path] != entries[path])
    }

    lemma {:induction false} PrefixAt(k: nat, path: Path)
      requires Admissible() && k <= |order| && path in current
      ensures path in Prefix(k)
      ensures (forall j :: 0 <= j < k ==> order[j] != path) ==> Prefix(k)[path] == current[path]
      ensures (exists j :: 0 <= j < k && order[j] == path) ==> Prefix(k)[path] == entries[path]
    {
      if k > 0 {
        PrefixAt(k - 1, path);
      }
    }

    /** Then no two of the manifests are the same. */
    lemma PrefixesDiffer(i: nat, j: nat)
      requires Admissible() && Distinguishable() && i < j <= |order|
      ensures Prefix(i) != Prefix(j)
    {
      var path := order[i];
      PrefixAt(i, path);
      PrefixAt(j, path);
    }
  }

  class Migration {
    const plan: Plan

    /** The private tree, and the siblings the backup is built in and published as. */
    var live: Tree
    var staging: Option<Tree>
    var backup: Option<Tree>
    /** Remote changes left before the connection is lost for good; None: it never is. */
    var fuel: Option<nat>
    /** Whether every remote call is carried out and answered. */
    var calm: bool
    /** How many files have been replaced. */
    ghost var done: nat

    ghost predicate Safe()
      reads this
    {
      && plan.Admissible() && plan.Pinned()
      && done <= |plan.order| && live == plan.PrefixTree(done)
      && (staging.Some? ==> plan.PartOfBackup(staging.value))
      && (backup.Some? ==> backup.value == plan.Backup())
      && (done > 0 ==> backup.Some?)
    }

    /** Whenever the tree is not the original one, the published backup laid over it gives the original. */
    lemma Restorable()
      requires Safe()
      ensures plan.InChain(live)
      ensures live != plan.original ==> backup.Some? && live + backup.value == plan.original
    {
      plan.BackupRestores(done);
    }

    constructor (plan: Plan, live: Tree)
      requires plan.Admissible() && plan.Pinned() && live == plan.original
      ensures Safe() && done == 0 && staging == None && backup == None && this.plan == plan
    {
      this.plan, this.live := plan, live;
      staging, backup, fuel, calm, done := None, None, None, true, 0;
    }

    method Tick() returns (alive: bool)
      modifies this`fuel
      ensures alive <==> old(fuel) != Some(0)
      ensures fuel == if alive && old(fuel).Some? then Some(old(fuel).value - 1) else old(fuel)
    {
      if fuel.Some? && fuel.value == 0 {
        return false;
      }
      fuel := if fuel.Some? then Some(fuel.value - 1) else None;
      return true;
    }

    /** Whether the read-only checks reach the server. */
    method Reached() returns (ok: bool)
      ensures calm ==> ok
    {
      ok := *;
      ok := ok || calm;
    }

    function See(tree: Option<Tree>, entries: Manifest): Inspection { Inspect(plan.digest, tree, entries) }

    // -------------------------------------------------------------- the chain of manifests

    method BuildPrefixes() returns (prefixes: seq<Manifest>)
      requires plan.Admissible()
      ensures |prefixes| == |plan.order| + 1 && forall k :: 0 <= k < |prefixes| ==> prefixes[k] == plan.Prefix(k)
    {
      prefixes := [plan.current];
      for i := 0 to |plan.order|
        invariant |prefixes| == i + 1 && forall k :: 0 <= k < |prefixes| ==> prefixes[k] == plan.Prefix(k)
      {
        var path := plan.order[i];
        prefixes := prefixes + [prefixes[i][path := plan.entries[path]]];
      }
    }

    /** The only manifest the tree has, if there is just one. */
    method FindPrefix(prefixes: seq<Manifest>) returns (prefix: Option<nat>)
      requires Safe() && |prefixes| == |plan.order| + 1
      requires forall k :: 0 <= k < |prefixes| ==> prefixes[k] == plan.Prefix(k)
      ensures prefix.Some? ==> prefix.value == done
      ensures plan.Distinguishable() ==> prefix.Some?
    {
      plan.PrefixDescribes(done);
      assert See(Some(live), prefixes[done]) == Exact;
      var exact: seq<nat> := [];
      for k := 0 to |prefixes|
        invariant forall i :: 0 <= i < |exact| ==> exact[i] < k
        invariant done < k ==> done in exact
        invariant plan.Distinguishable() ==> exact == if done < k then [done] else []
      {
        if See(Some(live), prefixes[k]) == Exact {
          exact := exact + [k];
          if plan.Distinguishable() && k != done {
            plan.PrefixesDiffer(if k < done then k else done, if k < done then done else k);
          }
        }
      }
      return if |exact| == 1 then Some(exact[0]) else None;
    }

    /** `verify_live`: the private tree is exactly one of the chain. */
    method VerifyLive(k: nat, entries: Manifest) returns (ok: bool)
      requires Safe() && k <= |plan.order| && entries == plan.Prefix(k)
      ensures ok ==> See(Some(live), plan.Prefix(k)) == Exact
      ensures calm && done == k ==> ok
    {
      hide Plan.Backup, Plan.PartOfBackup;
      var reached := Reached();
      plan.PrefixDescribes(done);
      return reached && See(Some(live), entries) == Exact;
    }

    /** `verify_backup` */
    method VerifyBackup() returns (ok: bool)
      requires Safe()
      ensures ok ==> backup.Some?
      ensures calm && backup.Some? ==> ok
    {
      hide Plan.Backup, Plan.PartOfBackup, Plan.Pinned, Plan.Admissible;
      var reached := Reached();
      StagingSeen();
      return reached && See(backup, plan.BackupEntries()) == Exact;
    }

    // -------------------------------------------------------------- the backup

    /** `delete_exact_tree` on the staging directory: file by file, then the directory. */
    method DeleteStaging() returns (out: Outcome<()>)
      requires Safe() && staging.Some?
      modifies this`staging, this`fuel
      ensures Safe() && !out.Refused?
      ensures out.Done? ==> staging == None
      ensures old(fuel) == Some(0) ==> out.Crashed? && staging == old(staging)
      ensures old(fuel) == Some(1) && plan.order != [] ==>
                out.Crashed? && staging == Some(old(staging).value - {plan.order[0]})
      ensures old(fuel).None? ==> out.Done? && fuel.None?
    {
      for i := 0 to |plan.order|
        invariant Safe() && staging.Some? && (old(fuel).None? ==> fuel.None?)
        invariant old(fuel).Some? ==> fuel.Some? && fuel.value + i == old(fuel).value
        invariant i == 0 ==> staging == old(staging)
        invariant i == 1 ==> staging == Some(old(staging).value - {plan.order[0]})
      {
        var alive := Tick();
        if !alive {
          return Crashed;
        }
        staging := Some(staging.value - {plan.order[i]});
      }
      var alive := Tick();
      if !alive {
        return Crashed;
      }
      staging := None;
      return Done(());
    }

    /** The originals as they are read from the private tree. */
    method ReadOriginals() returns (out: Outcome<Tree>)
      requires Safe() && done == 0
      ensures !out.Crashed? && (out.Done? ==> out.value == plan.Backup())
      ensures calm ==> out.Done?
    {
      plan.BackupDescribes();
      var bodies: Tree := map[];
      for i := 0 to |plan.order|
        invariant bodies.Keys == set path | path in plan.order[..i]
        invariant forall path :: path in bodies ==> path in plan.original && bodies[path] == plan.original[path]
      {
        var path := plan.order[i];
        var item := plan.current[path];
        Original(path);
        var reached := Reached();
        if !reached || |live[path].body| != item.size || plan.digest(live[path].body) != item.sha {
          return Refused;
        }
        assert plan.order[..i + 1] == plan.order[..i] + [path];
        bodies := bodies[path := File(item.mode, live[path].body)];
      }
      assert plan.order[..|plan.order|] == plan.order;
      return Done(bodies);
    }

    lemma Original(path: Path)
      requires Safe() && done == 0 && path in plan.order
      ensures path in live && path in plan.original && live[path] == plan.original[path]
      ensures Describe(plan.digest, live[path]) == plan.current[path]
    {
      assert path in DescribeTree(plan.digest, plan.original);
    }

    /** `deploy_release` of the originals into the staging directory, one file after another. */
    method Upload(bodies: Tree) returns (out: Outcome<()>)
      requires Safe() && staging.None? && bodies == plan.Backup()
      modifies this`staging, this`fuel
      ensures Safe() && !out.Refused?
      ensures out.Done? ==> staging == Some(plan.Backup())
      ensures old(fuel) == Some(0) ==> out.Crashed? && staging == None
      ensures old(fuel) == Some(1) && bodies != map[] ==> out.Crashed? && staging == Some(map[])
      ensures old(fuel).None? ==> out.Done? && fuel.None?
    {
      hide Plan.Backup, Plan.PartOfBackup, Plan.Pinned, Plan.Admissible;
      var alive := Tick();
      if !alive {
        return Crashed;
      }
      staging := Some(map[]);
      EmptyIsPart();
      var rest := bodies.Keys;
      while rest != {}
        invariant rest <= bodies.Keys && Safe() && staging.Some? && staging.value.Keys == bodies.Keys - rest
        invariant old(fuel).None? ==> fuel.None?
        invariant old(fuel) == Some(1) ==> rest == bodies.Keys && fuel == Some(0) && staging == Some(map[])
      {
        var path :| path in rest;
        alive := Tick();
        if !alive {
          return Crashed;
        }
        plan.PartGrows(staging.value, path);
        staging := Some(staging.value[path := bodies[path]]);
        rest := rest - {path};
      }
      plan.WholeBackup(staging.value);
      return Done(());
    }

    lemma EmptyIsPart()
      ensures plan.PartOfBackup(map[])
    {
    }

    /** `publish_directory`: one rename, which may be carried out and not answered. */
    method Publish() returns (out: Outcome<()>)
      requires Safe() && staging == Some(plan.Backup()) && backup.None?
      modifies this`staging, this`backup, this`fuel
      ensures Safe()
      ensures out.Done? ==> backup.Some?
      ensures old(fuel) == Some(0) ==> out.Crashed? && staging == old(staging) && backup == old(backup)
      ensures old(fuel).None? && calm ==> out.Done? && fuel.None?
    {
      var alive := Tick();
      if !alive {
        return Crashed;
      }
      var acts, answers: bool := *, *;
      if acts || calm {
        staging, backup := None, staging;
      }
      return if (acts && answers) || calm then Done(()) else Refused;
    }

    /** What the inspections say of a tree that is part of the originals. */
    lemma StagingSeen()
      requires Safe()
      ensures See(staging, plan.BackupEntries()) == Exact <==> staging == Some(plan.Backup())
      ensures See(staging, plan.BackupEntries()) == Absent <==> staging.None?
      ensures See(staging, plan.BackupEntries()) != Bad
      ensures See(backup, plan.BackupEntries()) == (if backup.Some? then Exact else Absent)
    {
      plan.BackupDescribes();
      if staging.Some? {
        StagingPartSeen(staging.value);
      }
    }

    lemma StagingPartSeen(tree: Tree)
      requires plan.Admissible() && plan.Pinned() && plan.PartOfBackup(tree)
      ensures See(Some(tree), plan.BackupEntries()) == Exact ==> tree == plan.Backup()
      ensures See(Some(tree), plan.BackupEntries()) != Bad
    {
      plan.BackupDescribes();
      hide Plan.Pinned, Plan.Admissible;
      var entries := plan.BackupEntries();
      forall path | path in tree ensures path in entries && Describe(plan.digest, tree[path]) == entries[path] {
        assert path in DescribeTree(plan.digest, plan.Backup());
      }
      if DescribeTree(plan.digest, tree) == entries {
        var described := DescribeTree(plan.digest, plan.Backup());
        assert tree.Keys == DescribeTree(plan.digest, tree).Keys == described.Keys == plan.Backup().Keys;
        plan.WholeBackup(tree);
      }
    }

    /**
     The backup is built aside, checked, and published with one rename; what an earlier attempt left is used or removed.
     */
    method PrepareBackup() returns (out: Outcome<()>)
      requires Safe() && done == 0 && backup.None?
      modifies this`staging, this`backup, this`fuel
      ensures Safe() && (out.Done? ==> backup.Some?)
      ensures old(fuel).None? && calm ==> out.Done? && fuel.None?
    {
      hide Plan.Backup, Plan.PartOfBackup, Plan.Pinned, Plan.Admissible, Inspect, Plan.BackupEntries;
      var verified := VerifyLive(0, plan.current);
      if !verified {
        return Refused;
      }
      var originals := ReadOriginals();
      if !originals.Done? {
        return Refused;
      }
      StagingSeen();
      var reached := Reached();
      var state := See(staging, plan.BackupEntries());
      if !reached {
        return Refused;
      }
      if state == Partial {
        verified := VerifyLive(0, plan.current);
        if !verified {
          return Refused;
        }
        var _ :- DeleteStaging();
        state := Absent;
      }
      if state != Absent && state != Exact {
        return Refused;
      }
      if state == Absent {
        verified := VerifyLive(0, plan.current);
        if !verified {
          return Refused;
        }
        var _ :- Upload(originals.value);
      }
      StagingSeen();
      reached := Reached();
      if !reached || See(staging, plan.BackupEntries()) != Exact || See(backup, plan.BackupEntries()) != Absent {
        return Refused;
      }
      verified := VerifyLive(0, plan.current);
      if !verified {
        return Refused;
      }
      out := Publish();
    }

    // -------------------------------------------------------------- one file

    /** `replace_bytes_atomic`: Some when it is answered; it may be carried out all the same when not. */
    method ReplaceAtomic(index: nat) returns (out: Outcome<Option<Bytes>>)
      requires Safe() && backup.Some? && index < |plan.order| && (done == index || done == index + 1)
      modifies this`live, this`fuel, this`done
      ensures Safe() && !out.Refused? && (done == old(done) || done == index + 1)
      ensures out.Done? && out.value.Some? ==> done == index + 1 && out.value == Some(plan.source[plan.order[index]])
      ensures old(fuel) == Some(0) ==> out.Crashed? && live == old(live) && done == old(done)
      ensures old(fuel).None? && calm ==> out.Done? && out.value.Some? && fuel.None?
    {
      hide Plan.Backup, Plan.PartOfBackup, Plan.Pinned, Plan.Admissible;
      InOrder(index);
      var path := plan.order[index];
      var alive := Tick();
      if !alive {
        return Crashed;
      }
      var acts, answers: bool := *, *;
      if acts || calm {
        live := live[path := File(plan.entries[path].mode, plan.source[path])];
        Replaced(index);
        done := index + 1;
      }
      return Done(if (acts && answers) || calm then Some(plan.source[path]) else None);
    }

    lemma InOrder(index: nat)
      requires plan.Admissible() && plan.Pinned() && index < |plan.order|
      ensures plan.order[index] in plan.entries && plan.order[index] in plan.source
    {
      assert plan.order[index] in plan.order;
    }

    /** Replacing a file, or replacing it again, leads to the next tree. */
    lemma Replaced(index: nat)
      requires plan.Admissible() && plan.Pinned() && index < |plan.order| && plan.order[index] in plan.entries
      requires plan.order[index] in plan.source
      ensures var path := plan.order[index]; var file := File(plan.entries[path].mode, plan.source[path]);
              && plan.PrefixTree(index)[path := file] == plan.PrefixTree(index + 1)
              && plan.PrefixTree(index + 1)[path := file] == plan.PrefixTree(index + 1)
    {
      hide Plan.Backup;
    }

    /** What is read back of the file that is being replaced. */
    lemma FileThere(index: nat)
      requires Safe() && index < |plan.order| && (done == index || done == index + 1)
      ensures plan.order[index] in live && plan.order[index] in plan.Backup()
      ensures plan.order[index] in plan.entries && plan.order[index] in plan.source
      ensures plan.Distinguishable() && done == index ==> live[plan.order[index]] == plan.Backup()[plan.order[index]]
      ensures done == index + 1 ==>
                live[plan.order[index]] == File(plan.entries[plan.order[index]].mode, plan.source[plan.order[index]])
      ensures var new_ := File(plan.entries[plan.order[index]].mode, plan.source[plan.order[index]]);
              Describe(plan.digest, new_) == plan.entries[plan.order[index]]
    {
      var path := plan.order[index];
      assert path in plan.order;
      assert path in DescribeTree(plan.digest, plan.original);
      if done == index {
        plan.PrefixDescribes(index);
        plan.PrefixAt(index, path);
        assert path in DescribeTree(plan.digest, live);
        if plan.Distinguishable() {
          plan.PrefixKeeps(index, path);
        }
      }
    }

    /** A tree with the next manifest and the new bytes is the next tree. */
    lemma Advanced(index: nat)
      requires Safe() && index < |plan.order| && done == index
      requires See(Some(live), plan.Prefix(index + 1)) == Exact
      requires plan.order[index] in live && plan.order[index] in plan.source
      requires live[plan.order[index]].body == plan.source[plan.order[index]]
      ensures live == plan.PrefixTree(index + 1)
    {
      var path := plan.order[index];
      assert path in plan.order;
      assert DescribeTree(plan.digest, live)[path] == plan.Prefix(index + 1)[path] == plan.entries[path];
    }

    /** One turn of the loop: the file is replaced, with a second try when the first left it as it was. */
    method ReplaceFile(index: nat, prefixes: seq<Manifest>) returns (out: Outcome<()>)
      requires Safe() && backup.Some? && index < |plan.order| && done == index
      requires |prefixes| == |plan.order| + 1 && forall k :: 0 <= k < |prefixes| ==> prefixes[k] == plan.Prefix(k)
      modifies this`live, this`fuel, this`done
      ensures Safe() && (out.Done? ==> done == index + 1)
      ensures old(fuel).None? && calm && plan.Distinguishable() ==> out.Done? && fuel.None?
    {
      hide Plan.Backup, Plan.PartOfBackup, Plan.Pinned, Plan.Admissible, Inspect, Plan.BackupEntries;
      var safe := VerifyBackup();
      var exact := VerifyLive(index, prefixes[index]);
      if !safe || !exact {
        return Refused;
      }
      var path := plan.order[index];
      FileThere(index);
      var oldBody := live[path].body;
      if oldBody != backup.value[path].body {
        return Refused;
      }
      var answer :- ReplaceAtomic(index);
      FileThere(index);
      if answer.None? && live[path].body == oldBody {
        safe := VerifyBackup();
        exact := VerifyLive(index, prefixes[index]);
        if !safe || !exact {
          return Refused;
        }
        answer :- ReplaceAtomic(index);
        FileThere(index);
      }
      out := CheckReplaced(index, prefixes, answer);
    }

    /** The readback of a replaced file, and of the tree it is in. */
    method CheckReplaced(index: nat, prefixes: seq<Manifest>, answer: Option<Bytes>) returns (out: Outcome<()>)
      requires Safe() && index < |plan.order| && (done == index || done == index + 1)
      requires |prefixes| == |plan.order| + 1 && forall k :: 0 <= k < |prefixes| ==> prefixes[k] == plan.Prefix(k)
      requires backup.Some? && (answer.Some? ==> answer == Some(plan.source[plan.order[index]]))
      modifies this`done
      ensures Safe() && !out.Crashed? && (out.Done? ==> done == index + 1)
      ensures calm && old(done) == index + 1 ==> out.Done?
    {
      hide Plan.Backup, Plan.PartOfBackup, Plan.Pinned, Plan.Admissible, Inspect, Plan.BackupEntries;
      FileThere(index);
      var path := plan.order[index];
      var readback, item := live[path].body, plan.entries[path];
      if (answer.Some? && answer.value != plan.source[path]) || readback != plan.source[path] || |readback| != item.size
        || plan.digest(readback) != item.sha {
        return Refused;
      }
      var exact := VerifyLive(index + 1, prefixes[index + 1]);
      if !exact {
        return Refused;
      }
      if done == index {
        Advanced(index);
        done := index + 1;
      }
      return Done(());
    }

    // -------------------------------------------------------------- whole attempts

    /** `_run_fixed_migration_transaction` */
    method Transaction(prefixes: seq<Manifest>, prefix: nat) returns (out: Outcome<()>)
      requires Safe() && prefix == done
      requires |prefixes| == |plan.order| + 1 && forall k :: 0 <= k < |prefixes| ==> prefixes[k] == plan.Prefix(k)
      modifies this
      ensures Safe() && (out.Done? ==> done == |plan.order|)
      ensures calm == old(calm) && (old(fuel).None? && calm && plan.Distinguishable() ==> out.Done?)
    {
      hide Plan.Backup, Plan.PartOfBackup, Plan.Pinned, Plan.Admissible, Inspect, Plan.BackupEntries;
      StagingSeen();
      var reached := Reached();
      if !reached || (prefix > 0 && See(backup, plan.BackupEntries()) != Exact) {
        return Refused;
      }
      if prefix == 0 && See(backup, plan.BackupEntries()) == Absent {
        var _ :- PrepareBackup();
      }
      var safe := VerifyBackup();
      if !safe {
        return Refused;
      }
      for index := prefix to |plan.order|
        invariant Safe() && backup.Some? && done == index
        invariant calm == old(calm) && (old(fuel).None? && calm && plan.Distinguishable() ==> fuel.None?)
      {
        var _ :- ReplaceFile(index, prefixes);
      }
      return Done(());
    }

    /** `_migrate_fixed_generation`, once its arguments are admissible: one attempt. */
    method Migrate() returns (out: Outcome<()>)
      requires Safe()
      modifies this
      ensures Safe() && (out.Done? ==> live == plan.PrefixTree(|plan.order|))
      ensures old(fuel).None? && old(calm) && plan.Distinguishable() ==> out.Done?
    {
      hide Plan.Backup, Plan.PartOfBackup, Plan.Pinned, Plan.Admissible, Inspect, Plan.BackupEntries;
      var prefixes := BuildPrefixes();
      var reached := Reached();
      var prefix := FindPrefix(prefixes);
      if !reached || prefix.None? {
        return Refused;
      }
      if prefix.value == |plan.order| {
        return Done(());
      }
      out := Transaction(prefixes, prefix.value);
    }

    /**
     Any number of attempts, each cut short anywhere: the tree is always one of the chain, and the published backup
     laid over it gives the original.  One undisturbed attempt more ends with the last tree.
     */
    method Run(power: seq<Option<nat>>, calms: seq<bool>) returns (trees: seq<Tree>)
      requires Safe() && |calms| == |power|
      modifies this
      ensures |trees| == |power| && forall i :: 0 <= i < |trees| ==> plan.InChain(trees[i])
      ensures live != plan.original ==> backup.Some? && live + backup.value == plan.original
      ensures plan.Distinguishable() ==> live == plan.PrefixTree(|plan.order|)
    {
      hide Plan.Backup, Plan.PartOfBackup, Plan.Pinned, Plan.Admissible, Plan.InChain;
      trees := [];
      for i := 0 to |power|
        invariant Safe() && |trees| == i
        invariant forall j :: 0 <= j < i ==> plan.InChain(trees[j])
      {
        fuel, calm := power[i], calms[i];
        var attempt := Migrate();
        Restorable();
        trees := trees + [live];
      }
      fuel, calm := None, true;
      var last := Migrate();
      Restorable();
    }
  }
}

/**
 Removing a finished transaction's directory: its inventory is recorded first, and the removal, which may be cut
 short anywhere, is taken up from the record until nothing is left.
 */
module InstallCleanup {
  import opened Outcomes
  import opened Text

  /** The names from the transaction's directory down. */
  type Path = seq<string>

  datatype Node = File(id: nat, mode: nat, body: string) | Dir(id: nat, mode: nat)

  type Tree = map<Path, Node>

  datatype Kind = RegularFile | Directory

  datatype Entry = Entry(path: Path, id: nat, kind: Kind, mode: nat, size: Option<nat>, sha: Option<string>)

  datatype Receipt = Receipt(root: nat, entries: seq<Entry>)

  function Describe(digest: string -> string, path: Path, node: Node): Entry {
    match node
    case File(id, mode, body) => Entry(path, id, RegularFile, mode, Some(|body|), Some(digest(body)))
    case Dir(id, mode) => Entry(path, id, Directory, mode, None, None)
  }

  /** Digests tell contents apart. */
  ghost predicate Distinguishes(digest: string -> string) {
    forall a: string, b: string {:trigger digest(a), digest(b)} :: digest(a) == digest(b) ==> a == b
  }

  /** A description tells what is there from anything else, down to the content of a file. */
  lemma DescribeTells(digest: string -> string, path: Path, a: Node, b: Node)
    requires Distinguishes(digest) && Describe(digest, path, a) == Describe(digest, path, b)
    ensures a == b
  {
  }

  /** A path is beneath another. */
  predicate Under(above: Path, path: Path) {
    |above| < |path| && path[..|above|] == above
  }

  /** Whatever is there is in a directory that is there, under a name of its own. */
  predicate IsTree(t: Tree) {
    forall path :: path in t ==>
      path != [] && ".." !in path && (|path| > 1 ==> path[..|path| - 1] in t && t[path[..|path| - 1]].Dir?)
  }

  lemma {:induction false} AncestorsExist(t: Tree, path: Path, k: nat)
    requires IsTree(t) && path in t && 0 < k < |path|
    ensures path[..k] in t && t[path[..k]].Dir?
    decreases |path|
  {
    var parent := path[..|path| - 1];
    if k < |parent| {
      AncestorsExist(t, parent, k);
      assert parent[..k] == path[..k];
    }
  }

  // ---------------------------------------------------------------- the order of an inventory

  /** The order in which names are visited. */
  predicate Less(a: string, b: string) {
    b != "" && (a == "" || a[0] < b[0] || (a[0] == b[0] && Less(a[1..], b[1..])))
  }

  lemma {:induction false} LessOrders(a: string, b: string)
    ensures Less(a, b) ==> a != b && !Less(b, a)
    ensures a == b || Less(a, b) || Less(b, a)
  {
    if a != "" && b != "" && a[0] == b[0] {
      LessOrders(a[1..], b[1..]);
      assert a == [a[0]] + a[1..] && b == [b[0]] + b[1..];
    }
  }

  lemma {:induction false} LessGoesOn(a: string, b: string, c: string)
    requires Less(a, b) && Less(b, c)
    ensures Less(a, c)
  {
    if a != "" && a[0] == b[0] == c[0] {
      LessGoesOn(a[1..], b[1..], c[1..]);
    }
  }

  /** The order of an inventory: by name, and what lies beneath a directory before the directory. */
  predicate Before(p: Path, q: Path) {
    p != [] && (q == [] || Less(p[0], q[0]) || (p[0] == q[0] && Before(p[1..], q[1..])))
  }

  lemma {:induction false} BeforeOrders(p: Path, q: Path)
    ensures Before(p, q) ==> p != q && !Before(q, p)
    ensures p == q || Before(p, q) || Before(q, p)
  {
    if p != [] && q != [] {
      LessOrders(p[0], q[0]);
      if p[0] == q[0] {
        BeforeOrders(p[1..], q[1..]);
        assert p == [p[0]] + p[1..] && q == [q[0]] + q[1..];
      }
    }
  }

  lemma {:induction false} BeneathIsBefore(above: Path, path: Path)
    requires Under(above, path)
    ensures Before(path, above)
  {
    if above != [] {
      assert path[0] == path[..|above|][0] && path[1..][..|above| - 1] == path[..|above|][1..];
      BeneathIsBefore(above[1..], path[1..]);
    }
  }

  lemma {:induction false} NameIsBefore(above: Path, p: Path, q: Path)
    requires Under(above, p) && Under(above, q) && Less(p[|above|], q[|above|])
    ensures Before(p, q)
  {
    if above != [] {
      assert p[0] == p[..|above|][0] && p[1..][..|above| - 1] == p[..|above|][1..];
      assert q[0] == q[..|above|][0] && q[1..][..|above| - 1] == q[..|above|][1..];
      NameIsBefore(above[1..], p[1..], q[1..]);
    }
  }

  predicate InOrder(entries: seq<Entry>) {
    forall i, j :: 0 <= i < j < |entries| ==> Before(entries[i].path, entries[j].path)
  }

  /** There is one inventory only: a tree, its digests and the order determine the list. */
  lemma {:induction false} OneInventory(digest: string -> string, t: Tree, a: seq<Entry>, b: seq<Entry>)
    requires Truthful(digest, t, a) && Truthful(digest, t, b) && InOrder(a) && InOrder(b) && Listed(a) == Listed(b)
    ensures a == b
  {
    hide Describe, Before;
    ListsSomething(b);
    if a != [] {
      assert a[0].path in Listed(b);
      FirstIsFirst(a, b);
      FirstIsFirst(b, a);
      BeforeOrders(a[0].path, b[0].path);
      ListedTail(a);
      ListedTail(b);
      OneInventory(digest, t, a[1..], b[1..]);
    }
  }

  lemma ListsSomething(a: seq<Entry>)
    ensures a != [] ==> Listed(a) != {}
  {
    if a != [] {
      assert a[0].path in Listed(a);
    }
  }

  lemma FirstIsFirst(a: seq<Entry>, b: seq<Entry>)
    requires InOrder(b) && a != [] && a[0].path in Listed(b)
    ensures a[0].path == b[0].path || Before(b[0].path, a[0].path)
  {
  }

  lemma ListedTail(a: seq<Entry>)
    requires InOrder(a) && a != []
    ensures InOrder(a[1..]) && Listed(a[1..]) == Listed(a) - {a[0].path}
  {
    hide Before;
    forall i | 0 < i < |a| ensures a[i].path != a[0].path && a[1..][i - 1] == a[i] {
      BeforeOrders(a[0].path, a[i].path);
    }
    forall path | path in Listed(a) - {a[0].path} ensures path in Listed(a[1..]) {
      var i :| 0 <= i < |a| && a[i].path == path;
      assert a[1..][i - 1].path == path;
    }
  }

  /** What lies beneath a directory comes before it. */
  predicate PostOrder(entries: seq<Entry>) {
    forall i, j :: 0 <= i < |entries| && 0 <= j < |entries| && Under(entries[i].path, entries[j].path) ==> j < i
  }

  predicate NoPathTwice(entries: seq<Entry>) {
    forall i, j :: 0 <= i < j < |entries| ==> entries[i].path != entries[j].path
  }

  function Listed(entries: seq<Entry>): set<Path> {
    set i | 0 <= i < |entries| :: entries[i].path
  }

  /** Every entry is as the tree has it. */
  predicate Truthful(digest: string -> string, t: Tree, entries: seq<Entry>) {
    forall i :: 0 <= i < |entries| ==>
      entries[i].path in t && entries[i] == Describe(digest, entries[i].path, t[entries[i].path])
  }

  /** A list in order names nothing twice, and a directory after what lies beneath it. */
  lemma InOrderIsOrdered(entries: seq<Entry>)
    requires InOrder(entries)
    ensures Ordered(entries)
  {
    hide Before, Under;
    forall i, j | 0 <= i < |entries| && 0 <= j < |entries| && Under(entries[i].path, entries[j].path) ensures j < i {
      BeneathIsBefore(entries[i].path, entries[j].path);
      BeforeOrders(entries[j].path, entries[i].path);
    }
    forall i, j | 0 <= i < j < |entries| ensures entries[i].path != entries[j].path {
      BeforeOrders(entries[i].path, entries[j].path);
    }
  }

  function Beneath(t: Tree, above: Path): set<Path> {
    set path | path in t && Under(above, path)
  }

  predicate Ordered(entries: seq<Entry>) {
    PostOrder(entries) && NoPathTwice(entries)
  }

  /** The complete inventory of what is beneath a directory, in order. */
  predicate Inventory(digest: string -> string, t: Tree, above: Path, entries: seq<Entry>) {
    Truthful(digest, t, entries) && Listed(entries) == Beneath(t, above) && InOrder(entries)
  }

  /** The names in a directory. */
  function Names(t: Tree, above: Path): set<string> {
    set path | path in t && Under(above, path) && |path| == |above| + 1 :: path[|above|]
  }

  /** What some names of a directory lead to. */
  function Through(t: Tree, above: Path, names: set<string>): set<Path> {
    set path | path in t && Under(above, path) && path[|above|] in names
  }

  lemma UnderUnder(above: Path, name: string, path: Path)
    ensures Under(above + [name], path) ==> Under(above, path) && path[|above|] == name
    ensures Under(above, path) && path[|above|] == name ==> path == above + [name] || Under(above + [name], path)
  {
    var child := above + [name];
    if Under(child, path) {
      assert path[..|above|] == path[..|child|][..|above|];
      assert path[..|child|][|above|] == name;
    }
    if Under(above, path) && path[|above|] == name {
      assert path[..|child|] == path[..|above|] + [name];
      if |path| == |child| {
        assert path == path[..|child|];
      }
    }
  }

  lemma SubtreeShrinks(t: Tree, above: Path, name: string)
    requires above + [name] in t
    ensures |Beneath(t, above + [name])| < |Beneath(t, above)|
  {
    var child := above + [name];
    assert child[..|above|] == above;
    assert child in Beneath(t, above) && child !in Beneath(t, child);
    forall path | path in Beneath(t, child) ensures path in Beneath(t, above) - {child} {
      UnderUnder(above, name, path);
    }
    SubsetSize(Beneath(t, child), Beneath(t, above) - {child});
  }

  lemma ThroughOneMore(t: Tree, above: Path, names: set<string>, name: string)
    requires above + [name] in t
    ensures Through(t, above, names + {name}) ==
            Through(t, above, names) + Beneath(t, above + [name]) + {above + [name]}
  {
    forall path: Path
      ensures path in Through(t, above, names + {name}) <==>
              path in Through(t, above, names) || path in Beneath(t, above + [name]) || path == above + [name]
    {
      UnderUnder(above, name, path);
      assert (above + [name])[..|above|] == above;
    }
  }

  /** Every path beneath a directory goes through one of its names. */
  lemma ThroughAll(t: Tree, above: Path)
    requires IsTree(t)
    ensures Through(t, above, Names(t, above)) == Beneath(t, above)
  {
    forall path | path in Beneath(t, above) ensures path[|above|] in Names(t, above) {
      var child := path[..|above| + 1];
      assert child[..|above|] == path[..|above|];
      if |child| < |path| {
        AncestorsExist(t, path, |child|);
      } else {
        assert child == path;
      }
      assert child in t && Under(above, child) && child[|above|] == path[|above|];
    }
  }

  /** Two lists one after the other are in order when all of the first comes before all of the second. */
  lemma InOrderTogether(a: seq<Entry>, b: seq<Entry>)
    requires InOrder(a) && InOrder(b)
    requires forall p, q :: p in Listed(a) && q in Listed(b) ==> Before(p, q)
    ensures InOrder(a + b) && Listed(a + b) == Listed(a) + Listed(b)
  {
    hide Before;
    var both := a + b;
    forall i | 0 <= i < |both| ensures both[i].path in Listed(a) + Listed(b) {
      assert both[i] == if i < |a| then a[i] else b[i - |a|];
    }
    forall i, j | 0 <= i < j < |both| ensures Before(both[i].path, both[j].path) {
      if i < |a| <= j {
        assert a[i].path in Listed(a) && b[j - |a|].path in Listed(b);
      }
    }
    forall path | path in Listed(a) + Listed(b) ensures path in Listed(both) {
      if path in Listed(a) {
        var i :| 0 <= i < |a| && a[i].path == path;
        assert both[i].path == path;
      } else {
        var i :| 0 <= i < |b| && b[i].path == path;
        assert both[|a| + i].path == path;
      }
    }
  }

  /** The entries of one more name, the next in order: those beneath it, then its own. */
  lemma OneNameMore(digest: string -> string, t: Tree, above: Path, names: set<string>, name: string,
    entries: seq<Entry>, beneath: seq<Entry>)
    requires above + [name] in t && forall earlier :: earlier in names ==> Less(earlier, name)
    requires Truthful(digest, t, entries) && Listed(entries) == Through(t, above, names) && InOrder(entries)
    requires Inventory(digest, t, above + [name], beneath)
    ensures var more := entries + (beneath + [Describe(digest, above + [name], t[above + [name]])]);
            Truthful(digest, t, more) && Listed(more) == Through(t, above, names + {name}) && InOrder(more)
  {
    hide Describe, InOrder, Under, IsTree, Before, Less;
    var child := above + [name];
    var own := [Describe(digest, child, t[child])];
    OwnEntry(digest, t, child);
    forall p, q | p in Beneath(t, child) && q in {child} ensures Before(p, q) {
      BeneathIsBefore(child, p);
    }
    InOrderTogether(beneath, own);
    forall p, q | p in Through(t, above, names) && q in Beneath(t, child) + {child} ensures Before(p, q) {
      UnderUnder(above, name, q);
      UnderOwn(above, name);
      NameIsBefore(above, p, q);
    }
    InOrderTogether(entries, beneath + own);
    ThroughOneMore(t, above, names, name);
  }

  lemma OwnEntry(digest: string -> string, t: Tree, path: Path)
    requires path in t
    ensures var own := [Describe(digest, path, t[path])];
            InOrder(own) && Listed(own) == {path} && Truthful(digest, t, own)
  {
    var own := [Describe(digest, path, t[path])];
    assert own[0].path == path;
    assert Listed(own) == {path};
  }

  lemma UnderOwn(above: Path, name: string)
    ensures Under(above, above + [name]) && (above + [name])[|above|] == name
  {
  }

  /** The next name in order. */
  method FirstName(names: set<string>) returns (first: string)
    requires names != {}
    ensures first in names && forall name :: name in names ==> name == first || Less(first, name)
  {
    first :| first in names;
    var rest := names - {first};
    while rest != {}
      invariant first in names && rest <= names
      invariant forall name :: name in names - rest ==> name == first || Less(first, name)
    {
      var name :| name in rest;
      LessOrders(first, name);
      if Less(name, first) {
        forall later | later in names - rest && later != first ensures Less(name, later) {
          LessGoesOn(name, first, later);
        }
        first := name;
      }
      rest := rest - {name};
    }
  }

  /** `_scan_cleanup_tree`: the inventory beneath a directory, name by name in their order. */
  method Scan(digest: string -> string, t: Tree, above: Path) returns (entries: seq<Entry>)
    requires IsTree(t)
    ensures Inventory(digest, t, above, entries)
    decreases |Beneath(t, above)|
  {
    hide Describe, InOrder, Under, IsTree, Truthful, Beneath, Through, Less;
    entries := [];
    var rest := Names(t, above);
    NothingYet(digest, t, above);
    while rest != {}
      invariant rest <= Names(t, above)
      invariant forall a, b :: a in Names(t, above) - rest && b in rest ==> Less(a, b)
      invariant Truthful(digest, t, entries) && Listed(entries) == Through(t, above, Names(t, above) - rest)
      invariant InOrder(entries)
    {
      var name := FirstName(rest);
      ChildIsThere(t, above, name);
      var child := above + [name];
      SubtreeShrinks(t, above, name);
      var beneath: seq<Entry>;
      if t[child].Dir? {
        beneath := Scan(digest, t, child);
      } else {
        beneath := [];
        FileHasNothingBeneath(digest, t, child);
      }
      OneNameMore(digest, t, above, Names(t, above) - rest, name, entries, beneath);
      entries := entries + (beneath + [Describe(digest, child, t[child])]);
      assert Names(t, above) - (rest - {name}) == Names(t, above) - rest + {name};
      rest := rest - {name};
    }
    assert Names(t, above) - rest == Names(t, above);
    ThroughAll(t, above);
  }

  lemma NothingYet(digest: string -> string, t: Tree, above: Path)
    ensures Truthful(digest, t, []) && Listed([]) == Through(t, above, {}) && InOrder([])
    ensures Names(t, above) - Names(t, above) == {}
  {
  }

  lemma ChildIsThere(t: Tree, above: Path, name: string)
    requires name in Names(t, above)
    ensures above + [name] in t
  {
    var path :| path in t && Under(above, path) && |path| == |above| + 1 && path[|above|] == name;
    assert path == above + [name];
  }

  lemma FileHasNothingBeneath(digest: string -> string, t: Tree, file: Path)
    requires IsTree(t) && file in t && t[file].File? && file != []
    ensures Inventory(digest, t, file, [])
  {
    forall path | path in Beneath(t, file) ensures false {
      AncestorsExist(t, path, |file|);
    }
  }

  // ---------------------------------------------------------------- the removal

  /** A receipt on disk; torn when so much is missing that none can be read from it. */
  datatype Written = Whole(content: Receipt) | Torn

  class Cleanup {
    const digest: string -> string
    /** The transaction's directory, what is beneath it, and the receipt beside it. */
    var root: Option<nat>
    var tree: Tree
    var receipt: Option<Written>
    /** Removals left before the power fails; None: it never does. */
    var fuel: Option<nat>

    ghost predicate Valid()
      reads this
    {
      IsTree(tree) && (root.None? ==> tree == map[])
    }

    /** What is still there of a recorded inventory is as it was recorded, in the recorded directory. */
    predicate Recorded(r: Receipt)
      reads this`root, this`tree
    {
      root == Some(r.root) && forall path :: path in tree ==> Describe(digest, path, tree[path]) in r.entries
    }

    constructor (digest: string -> string, root: nat, tree: Tree)
      requires IsTree(tree)
      ensures Valid() && this.root == Some(root) && this.tree == tree && receipt == None && this.digest == digest
    {
      this.digest, this.root, this.tree, receipt, fuel := digest, Some(root), tree, None, None;
    }

    method Tick() returns (alive: bool)
      modifies this`fuel
      ensures alive <==> old(fuel) != Some(0)
      ensures fuel == if alive && old(fuel).Some? then Some(old(fuel).value - 1) else old(fuel)
    {
      if fuel.Some? && fuel.value == 0 {
        return false;
      }
      fuel := if fuel.Some? then Some(fuel.value - 1) else None;
      return true;
    }

    /**
     `create_cleanup_receipt`: only what the caller has verified is recorded, under a name that is not taken; a
     receipt that is cut short stays there.
     */
    method CreateReceipt(expectedRoot: nat, expected: seq<Entry>) returns (out: Outcome<()>)
      requires Valid()
      modifies this`receipt, this`fuel
      ensures Valid()
      ensures out.Refused? <==>
              old(receipt).Some? || root != Some(expectedRoot) || !Inventory(digest, tree, [], expected)
      ensures out.Done? ==> receipt == Some(Whole(Receipt(expectedRoot, expected)))
      ensures out.Refused? ==> receipt == old(receipt)
      ensures out.Crashed? ==> receipt in {None, Some(Torn)}
      ensures !out.Refused? && old(fuel) == Some(0) ==> out.Crashed? && receipt == None
      ensures !out.Refused? && old(fuel) == Some(1) ==> out.Crashed? && receipt == Some(Torn)
      ensures old(fuel).None? ==> !out.Crashed?
    {
      if root.None? {
        return Refused;
      }
      var entries := Scan(digest, tree, []);
      if Inventory(digest, tree, [], expected) {
        OneInventory(digest, tree, entries, expected);
      }
      if root != Some(expectedRoot) || entries != expected || receipt.Some? {
        return Refused;
      }
      var alive := Tick();
      if !alive {
        return Crashed;
      }
      receipt := Some(Torn);
      alive := Tick();
      if !alive {
        return Crashed;
      }
      receipt := Some(Whole(Receipt(expectedRoot, expected)));
      return Done(());
    }

    /** The entry is not there any more, or is what was recorded with nothing beneath it. */
    predicate Removable(entry: Entry)
      reads this`tree
    {
      && (entry.path in tree ==>
        tree[entry.path].id == entry.id && (tree[entry.path].Dir? <==> entry.kind == Directory))
      && (forall path :: path in tree ==> !Under(entry.path, path))
    }

    /** One recorded entry is removed if it is still there; a directory is empty by then. */
    method RemoveEntry(entry: Entry) returns (out: Outcome<()>)
      requires Valid() && entry.path != []
      modifies this`tree, this`fuel
      ensures Valid()
      ensures
        || tree == old(tree)
        || (&& entry.path in old(tree) && old(tree)[entry.path].id == entry.id && tree == old(tree) - {entry.path}
            && forall path :: path in old(tree) ==> !Under(entry.path, path))
      ensures out.Done? ==> entry.path !in tree
      ensures old(fuel) == Some(0) ==> tree == old(tree) && fuel == Some(0)
      ensures old(fuel).None? ==> !out.Crashed? && fuel.None?
      ensures old(Removable(entry)) ==> !out.Refused?
    {
      var depth := 1;
      while depth < |entry.path|
        invariant 1 <= depth <= |entry.path|
      {
        if entry.path[..depth] !in tree {
          if entry.path in tree {
            AncestorsExist(tree, entry.path, depth);
          }
          return Done(());
        }
        depth := depth + 1;
      }
      if entry.path !in tree {
        return Done(());
      }
      if tree[entry.path].id != entry.id || (tree[entry.path].Dir? <==> entry.kind == RegularFile) {
        return Refused;
      }
      if tree[entry.path].Dir? && exists path :: path in tree && Under(entry.path, path) {
        return Refused;
      }
      var alive := Tick();
      if !alive {
        return Crashed;
      }
      if tree[entry.path].File? {
        FileHasNothingBeneath(digest, tree, entry.path);
        forall path | path in tree ensures !Under(entry.path, path) {
          assert path in Beneath(tree, entry.path) <==> Under(entry.path, path);
        }
      }
      RemovalKeepsTree(tree, entry.path);
      tree := tree - {entry.path};
      return Done(());
    }

    lemma RemovalKeepsTree(t: Tree, gone: Path)
      requires IsTree(t) && gone != [] && forall path :: path in t ==> !Under(gone, path)
      ensures IsTree(t - {gone})
    {
      forall path | path in t - {gone} && |path| > 1 ensures path[..|path| - 1] != gone {
        assert !Under(gone, path);
      }
    }

    predicate EntryOk(entry: Entry) { entry.path != [] && ".." !in entry.path }

    /** The next recorded entry can be removed once all before it are gone. */
    lemma NextIsRemovable(r: Receipt, i: nat)
      requires Valid() && Recorded(r) && Ordered(r.entries) && i < |r.entries|
      requires forall j :: 0 <= j < i ==> r.entries[j].path !in tree
      ensures Removable(r.entries[i])
    {
      var entry := r.entries[i];
      if entry.path in tree {
        assert Describe(digest, entry.path, tree[entry.path]) in r.entries;
        var j :| 0 <= j < |r.entries| && r.entries[j] == Describe(digest, entry.path, tree[entry.path]);
        assert j == i;
      }
      forall path | path in tree ensures !Under(entry.path, path) {
        var j :| 0 <= j < |r.entries| && r.entries[j] == Describe(digest, path, tree[path]);
      }
    }

    /** The surviving entries are removed in their order. */
    method RemoveEntries(r: Receipt) returns (out: Outcome<()>)
      requires Valid() && root.Some? && Recorded(r) && NoPathTwice(r.entries)
      requires forall i :: 0 <= i < |r.entries| ==> EntryOk(r.entries[i])
      modifies this`tree, this`fuel
      ensures Valid() && Recorded(r) && tree.Keys <= old(tree).Keys
      ensures (forall path :: path in tree ==> tree[path] == old(tree)[path])
      ensures out.Done? ==> tree == map[]
      ensures old(fuel) == Some(0) ==> tree == old(tree) && fuel == Some(0)
      ensures old(fuel).None? && PostOrder(r.entries) ==> out.Done? && fuel.None?
    {
      hide Describe, IsTree, PostOrder;
      for i := 0 to |r.entries|
        invariant Valid() && Recorded(r) && tree.Keys <= old(tree).Keys
        invariant (forall path :: path in tree ==> tree[path] == old(tree)[path])
        invariant forall j :: 0 <= j < i ==> r.entries[j].path !in tree
        invariant old(fuel) == Some(0) ==> tree == old(tree) && fuel == Some(0)
        invariant old(fuel).None? && PostOrder(r.entries) ==> fuel.None?
      {
        if PostOrder(r.entries) {
          NextIsRemovable(r, i);
        }
        var _ :- RemoveEntry(r.entries[i]);
      }
      AllGone(r);
      return Done(());
    }

    lemma RecordedAt(r: Receipt, path: Path) returns (j: nat)
      requires Recorded(r) && path in tree
      ensures j < |r.entries| && r.entries[j].path == path
    {
      j :| 0 <= j < |r.entries| && r.entries[j] == Describe(digest, path, tree[path]);
    }

    lemma AllGone(r: Receipt)
      requires Recorded(r) && forall j :: 0 <= j < |r.entries| ==> r.entries[j].path !in tree
      ensures tree == map[]
    {
      if tree != map[] {
        var path :| path in tree;
        var j := RecordedAt(r, path);
      }
    }

    predicate Legible()
      reads this`receipt
    {
      receipt.Some? && receipt.value.Whole?
    }

    /**
     `resume_cleanup`: nothing is removed unless all that is still there is as it was recorded; each directory is
     empty when it is removed; the receipt goes last.
     */
    method Resume() returns (out: Outcome<()>)
      requires Valid()
      modifies this`root, this`tree, this`receipt, this`fuel
      ensures Valid() && tree.Keys <= old(tree).Keys && (forall path :: path in tree ==> tree[path] == old(tree)[path])
      ensures !old(Legible()) ==> out.Refused? && root == old(root) && tree == old(tree) && receipt == old(receipt)
      ensures receipt == old(receipt) || (receipt.None? && root.None?)
      ensures root == old(root) || (root.None? && old(Legible()))
      ensures old(Legible()) && old(root).Some? && !old(Recorded(receipt.value.content)) ==>
                out.Refused? && root == old(root) && tree == old(tree) && receipt == old(receipt)
      ensures old(Legible()) && old(root).Some? && old(Recorded(receipt.value.content)) ==>
                root.None? || Recorded(old(receipt).value.content)
      ensures old(Legible()) && old(root).Some? &&
              (exists i :: 0 <= i < |old(receipt).value.content.entries| &&
                 (old(receipt).value.content.entries[i].path == []
                   || ".." in old(receipt).value.content.entries[i].path)) ==>
                out.Refused? && root == old(root) && tree == old(tree) && receipt == old(receipt)
      ensures old(fuel) == Some(0) ==> !out.Done? && receipt == old(receipt)
      ensures out.Done? ==> root.None? && tree == map[] && receipt.None?
      ensures old(fuel).None? && old(Legible()) && Ordered(old(receipt).value.content.entries)
              && (forall i :: 0 <= i < |old(receipt).value.content.entries| ==>
                EntryOk(old(receipt).value.content.entries[i]))
              && (old(root).Some? ==> old(Recorded(receipt.value.content))) ==>
                out.Done?
    {
      hide Describe, IsTree, PostOrder;
      if !Legible() {
        return Refused;
      }
      var r := receipt.value.content;
      if root.Some? {
        if || root != Some(r.root) || !NoPathTwice(r.entries)
           || exists i :: 0 <= i < |r.entries| && !EntryOk(r.entries[i])
        {
          return Refused;
        }
        var actual := Scan(digest, tree, []);
        ScanTells(r, actual);
        if exists i :: 0 <= i < |actual| && actual[i] !in r.entries {
          return Refused;
        }
        var _ :- RemoveEntries(r);
        var alive := Tick();
        if !alive {
          return Crashed;
        }
        root := None;
      }
      var alive := Tick();
      if !alive {
        return Crashed;
      }
      receipt := None;
      return Done(());
    }

    /** All that is still there is recorded exactly when the scan finds nothing else. */
    lemma ScanTells(r: Receipt, actual: seq<Entry>)
      requires IsTree(tree) && Inventory(digest, tree, [], actual) && root == Some(r.root)
      ensures Recorded(r) <==> forall i :: 0 <= i < |actual| ==> actual[i] in r.entries
    {
      hide Describe;
      forall path | path in tree ensures path in Listed(actual) {
        assert path in Beneath(tree, []);
      }
    }

    lemma InventoryEntriesOk(entries: seq<Entry>)
      requires IsTree(tree) && Inventory(digest, tree, [], entries)
      ensures forall i :: 0 <= i < |entries| ==> EntryOk(entries[i])
    {
    }

    /** What survives of a recorded tree is as recorded exactly when every node is the one that was there. */
    lemma RecordedIffSame(made: Tree, r: Receipt)
      requires Distinguishes(digest) && Truthful(digest, made, r.entries) && root == Some(r.root)
      requires Listed(r.entries) == made.Keys
      ensures Recorded(r) <==> PartOf(tree, made)
    {
      hide Describe;
      forall path | path in tree
        ensures Describe(digest, path, tree[path]) in r.entries <==> path in made && tree[path] == made[path]
      {
        if path in made {
          assert path in Listed(r.entries);
          var i :| 0 <= i < |r.entries| && r.entries[i].path == path;
          if Describe(digest, path, tree[path]) in r.entries {
            PathOfDescription(path, tree[path]);
            DescribeTells(digest, path, tree[path], made[path]);
          }
        }
        DescribedIsListed(path, tree[path], r.entries);
      }
    }

    lemma DescribedIsListed(path: Path, node: Node, entries: seq<Entry>)
      ensures Describe(digest, path, node) in entries ==> path in Listed(entries)
    {
      if Describe(digest, path, node) in entries {
        var i :| 0 <= i < |entries| && entries[i] == Describe(digest, path, node);
        assert entries[i].path == path;
      }
    }

    lemma PathOfDescription(path: Path, node: Node)
      ensures Describe(digest, path, node).path == path
    {
    }

    /**
     A receipt is made, perhaps cut short; the directory changes, perhaps; and then follow any number of removals,
     each cut short anywhere, and one that is not.  With a whole receipt, and with nothing there but what was
     recorded, all of it is gone at the end, and the receipt with it.  Otherwise nothing is ever removed: not when a
     single node is not the one that was recorded, and not without a whole receipt, of which a torn one stays.
     */
    method Run(expectedRoot: nat, expected: seq<Entry>, changed: Tree, power: seq<Option<nat>>)
      returns (created: Outcome<()>)
      requires Valid() && receipt.None? && (root.Some? ==> IsTree(changed)) && (root.None? ==> changed == map[])
      modifies this
      ensures Valid()
      ensures created.Refused? <==> old(root) != Some(expectedRoot) || !Inventory(digest, old(tree), [], expected)
      ensures created.Done? && PartOf(changed, old(tree)) ==> root.None? && tree == map[] && receipt.None?
      ensures created.Done? && Distinguishes(digest) && !PartOf(changed, old(tree)) ==>
                tree == changed && root == old(root) && receipt == Some(Whole(Receipt(expectedRoot, expected)))
      ensures !created.Done? ==> tree == changed && root == old(root) && receipt in {None, Some(Torn)}
      ensures created.Refused? ==> receipt.None?
    {
      hide Describe, IsTree, Ordered, Inventory, Recorded, Distinguishes;
      ghost var made := tree;
      created := CreateReceipt(expectedRoot, expected);
      ghost var written := receipt;
      var r := Receipt(expectedRoot, expected);
      if created.Done? {
        InventoryIsOrdered(expected);
        InventoryEntriesOk(expected);
        InventoryOfAll(expected);
      }
      tree := changed;
      if created.Done? {
        PartIsRecorded(made, r);
        if Distinguishes(digest) {
          RecordedIffSame(made, r);
        }
      }
      for i := 0 to |power|
        invariant Valid()
        invariant !created.Done? ==> tree == changed && root == old(root) && receipt == written
        invariant created.Done? && PartOf(changed, made) ==>
                    (receipt == Some(Whole(r)) || (receipt.None? && root.None?)) && (root.Some? ==> Recorded(r))
        invariant created.Done? && Distinguishes(digest) && !PartOf(changed, made) ==>
                    tree == changed && root == Some(expectedRoot) && receipt == Some(Whole(r)) && !Recorded(r)
      {
        fuel := power[i];
        var attempt := Resume();
      }
      fuel := None;
      if receipt.Some? {
        var last := Resume();
      }
    }

    predicate PartOf(t: Tree, whole: Tree) {
      forall path :: path in t ==> path in whole && t[path] == whole[path]
    }

    /** Whatever is left of a tree that was recorded is as recorded. */
    lemma PartIsRecorded(made: Tree, r: Receipt)
      requires Truthful(digest, made, r.entries) && Listed(r.entries) == made.Keys && root == Some(r.root)
      ensures PartOf(tree, made) ==> Recorded(r)
    {
      hide Describe;
      if PartOf(tree, made) {
        forall path | path in tree ensures Describe(digest, path, tree[path]) in r.entries {
          assert path in Listed(r.entries);
          var i :| 0 <= i < |r.entries| && r.entries[i].path == path;
        }
      }
    }

    lemma InventoryOfAll(entries: seq<Entry>)
      requires IsTree(tree) && Inventory(digest, tree, [], entries)
      ensures Truthful(digest, tree, entries) && Listed(entries) == tree.Keys
    {
      forall path | path in tree ensures path in Beneath(tree, []) {
      }
    }

    lemma InventoryIsOrdered(entries: seq<Entry>)
      requires Inventory(digest, tree, [], entries)
      ensures Ordered(entries)
    {
      InOrderIsOrdered(entries);
    }
  }
}

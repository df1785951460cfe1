/** The content-addressed tree diff (src/patch.rs): a worklist over pairs of directories that
    never descends where both sides carry the same hash. */
module Diff {
  import opened Base
  import opened TreeCodec
  import opened Merkle
  import Utf8

  datatype ChangeKind = Added | Modified | Deleted

  datatype Change = Change(path: Path, kind: ChangeKind, oldSize: Option<nat>, newSize: Option<nat>,
                           oldBlob: Option<Hash>, newBlob: Option<Hash>)

  datatype WorkItem =
    | Compare(prefix: Path, oldHash: Hash, newHash: Hash)
    | AddAll(prefix: Path, hash: Hash)
    | DeleteAll(prefix: Path, hash: Hash)

  datatype DiffError = IterationCap | TreeMissing(h: Hash) | BlobMissing(fh: Hash) | BadTree(e: TreeError)

  const MAX_DIFF_ITERS: nat := 262144

  // ----- what the diff must report ------------------------------------------------------

  function SizeOf(s: Store, h: Hash): nat {
    if h in s then |s[h]| else 0
  }

  /** The change at a path that held content `a` and now holds content `b`. */
  function ChangeFor(s: Store, p: Path, a: Option<Hash>, b: Option<Hash>): Option<Change> {
    if a == b then None
    else
      Some(Change(p,
                  if a.None? then Added else if b.None? then Deleted else Modified,
                  if a.Some? then Some(SizeOf(s, a.value)) else None,
                  if b.Some? then Some(SizeOf(s, b.value)) else None,
                  a, b))
  }

  /** The difference of the two flattened trees at one path. */
  function ExactChange(s: Store, o: Node, n: Node, p: Path): Option<Change> {
    ChangeFor(s, p, FileAt(Some(o), p), FileAt(Some(n), p))
  }

  /** Both sides have something at `q`, under one hash. */
  predicate Shared(o: Node, n: Node, q: Path) {
    var a, b := NodeAt(Some(o), q), NodeAt(Some(n), q);
    a.Some? && b.Some? && a.value.hash == b.value.hash
  }

  /** Some node on the way down to `p` is shared, so the walk never gets there. */
  ghost predicate Pruned(o: Node, n: Node, p: Path) {
    exists k :: 0 <= k <= |p| && Shared(o, n, p[..k])
  }

  /** What a walk that stops at shared nodes can see at a path. */
  ghost function SeenChange(s: Store, o: Node, n: Node, p: Path): Option<Change> {
    if Pruned(o, n, p) then None else ExactChange(s, o, n, p)
  }

  /** No path is a file on one side and a directory on the other under one hash. The two can
      only meet when the file's content is the bytes of a tree object, as when both are empty. */
  ghost predicate KindConsistent(o: Node, n: Node) {
    forall q :: Shared(o, n, q) ==> NodeAt(Some(o), q).value.Dir? == NodeAt(Some(n), q).value.Dir?
  }

  predicate DistinctPaths(changes: seq<Change>) {
    forall i, j :: 0 <= i < j < |changes| ==> changes[i].path != changes[j].path
  }

  /** A change list that names each path at most once and holds exactly the changes a pruned
      walk can see. */
  ghost predicate ListsSeen(s: Store, o: Node, n: Node, changes: seq<Change>) {
    && DistinctPaths(changes)
    && (forall c :: c in changes ==> SeenChange(s, o, n, c.path) == Some(c))
    && (forall p :: SeenChange(s, o, n, p).Some? ==> SeenChange(s, o, n, p).value in changes)
  }

  /** The same for the full difference of the two flattened trees. */
  ghost predicate ListsExact(s: Store, o: Node, n: Node, changes: seq<Change>) {
    && DistinctPaths(changes)
    && (forall c :: c in changes ==> ExactChange(s, o, n, c.path) == Some(c))
    && (forall p :: ExactChange(s, o, n, p).Some? ==> ExactChange(s, o, n, p).value in changes)
  }

  /** Pruning at equal hashes loses nothing exactly when kinds are consistent. */
  lemma PruningIsExactIff(s: Store, o: Node, n: Node)
    requires Unfolds(s, true, o.hash, o) && Unfolds(s, true, n.hash, n)
    ensures (forall p :: SeenChange(s, o, n, p) == ExactChange(s, o, n, p)) <==> KindConsistent(o, n)
  {
    if KindConsistent(o, n) {
      forall p ensures SeenChange(s, o, n, p) == ExactChange(s, o, n, p) {
        if k :| 0 <= k <= |p| && Shared(o, n, p[..k]) {
          var q := p[..k];
          var a, b := NodeAt(Some(o), q).value, NodeAt(Some(n), q).value;
          UnfoldsAt(s, true, o.hash, o, q);
          UnfoldsAt(s, true, n.hash, n, q);
          UnfoldsUnique(s, a.Dir?, a.hash, a, b);
          assert p == q + p[k..];
          NodeAtAppend(Some(o), q, p[k..]);
          NodeAtAppend(Some(n), q, p[k..]);
        }
      }
    } else {
      var q :| Shared(o, n, q) && NodeAt(Some(o), q).value.Dir? != NodeAt(Some(n), q).value.Dir?;
      assert q[..|q|] == q;
      assert Pruned(o, n, q);
      assert SeenChange(s, o, n, q) != ExactChange(s, o, n, q);
    }
  }

  /** So what the walk reports is the whole difference exactly when kinds are consistent. */
  lemma SeenListIsExactIff(s: Store, o: Node, n: Node, changes: seq<Change>)
    requires Unfolds(s, true, o.hash, o) && Unfolds(s, true, n.hash, n)
    requires ListsSeen(s, o, n, changes)
    ensures ListsExact(s, o, n, changes) <==> KindConsistent(o, n)
  {
    PruningIsExactIff(s, o, n);
    if ListsExact(s, o, n, changes) {
      forall p ensures SeenChange(s, o, n, p) == ExactChange(s, o, n, p) {
        if ExactChange(s, o, n, p).Some? {
          assert SeenChange(s, o, n, ExactChange(s, o, n, p).value.path).Some?;
        }
      }
    }
  }

  /** What a reported change says, in terms of the two flattened trees and the stored bytes:
      its kind, the two contents, and their true lengths. */
  lemma ReportedChangeMeans(s: Store, o: Node, n: Node, changes: seq<Change>, c: Change)
    requires ListsSeen(s, o, n, changes) && c in changes
    ensures c.kind.Added? <==> c.path !in Flatten(o) && c.path in Flatten(n)
    ensures c.kind.Deleted? <==> c.path in Flatten(o) && c.path !in Flatten(n)
    ensures c.kind.Modified? <==> c.path in Flatten(o) && c.path in Flatten(n) && Flatten(o)[c.path] != Flatten(n)[c.path]
    ensures c.oldBlob == if c.path in Flatten(o) then Some(Flatten(o)[c.path]) else None
    ensures c.newBlob == if c.path in Flatten(n) then Some(Flatten(n)[c.path]) else None
    ensures c.oldSize.Some? == c.oldBlob.Some? && c.newSize.Some? == c.newBlob.Some?
    ensures c.oldBlob.Some? && c.oldBlob.value in s ==> c.oldSize == Some(|s[c.oldBlob.value]|)
    ensures c.newBlob.Some? && c.newBlob.value in s ==> c.newSize == Some(|s[c.newBlob.value]|)
  {
    assert SeenChange(s, o, n, c.path) == Some(c);
  }

  /** And the other way round: every path whose content differs is reported, once, unless some
      node on the way to it stands under one hash on both sides. */
  lemma DifferenceIsReported(s: Store, o: Node, n: Node, changes: seq<Change>, p: Path)
    requires ListsSeen(s, o, n, changes)
    requires forall k: nat :: k <= |p| && NodeAt(Some(o), p[..k]).Some? && NodeAt(Some(n), p[..k]).Some? ==>
               NodeAt(Some(o), p[..k]).value.hash != NodeAt(Some(n), p[..k]).value.hash
    requires p in Flatten(o) || p in Flatten(n)
    ensures exists i: nat :: i < |changes| && changes[i].path == p && forall j: nat :: j < |changes| && changes[j].path == p ==> j == i
  {
    assert !Pruned(o, n, p);
    assert p in Flatten(o) && p in Flatten(n) ==> p[..|p|] == p;
    var c := SeenChange(s, o, n, p).value;
    var i: nat :| i < |changes| && changes[i] == c;
  }

  /** A directory object with one entry unfolds to a directory with one child. */
  lemma OneEntryUnfolds(s: Store, root: Hash, e: Entry, kid: Node)
    requires root in s && Decode(s[root]) == Ok([e]) && Unfolds(s, IsDir(e), e.hash, kid)
    ensures Unfolds(s, true, root, Dir(root, map[e.name := kid]))
  {
    hide DecodeRest, Utf8.Valid;
    assert [e][0] == e && DistinctNames([e]) && Names([e]) == {e.name};
  }

  lemma EmptyDecodes()
    ensures Decode([]) == Ok([])
  {
    DecodeSucceedsExactlyOn([], []);
    assert EncodeAll([]) == [];
  }

  /** The clash happens: replacing an empty file by an empty directory goes unreported. */
  lemma EmptyFileToEmptyDirIsLost(rootA: Hash, rootB: Hash, e: Hash)
    requires rootA != rootB && e != rootA && e != rootB
    ensures
      var x: Name := [120];
      var s: Store := map[rootA := EncodeAll([Entry(MODE_FILE, x, e)]), rootB := EncodeAll([Entry(MODE_DIR, x, e)]), e := []];
      var o, n := Dir(rootA, map[x := File(e)]), Dir(rootB, map[x := Dir(e, map[])]);
      && Unfolds(s, true, rootA, o) && Unfolds(s, true, rootB, n)
      && SeenChange(s, o, n, [x]) == None && ExactChange(s, o, n, [x]).Some?
  {
    var x: Name := [120];
    var ea, eb := Entry(MODE_FILE, x, e), Entry(MODE_DIR, x, e);
    var s: Store := map[rootA := EncodeAll([ea]), rootB := EncodeAll([eb]), e := []];
    AsciiTreeDecodes([ea]);
    AsciiTreeDecodes([eb]);
    EmptyDecodes();
    EmptyUnfolds(s, e);
    hide Decode, EncodeAll, Unfolds, SeenChange, ExactChange;
    OneEntryUnfolds(s, rootA, ea, File(e));
    OneEntryUnfolds(s, rootB, eb, Dir(e, map[]));
    EmptyClashUnseen(s, rootA, rootB, e, x);
  }

  /** Zero bytes are an empty file and an empty directory. */
  lemma EmptyUnfolds(s: Store, e: Hash)
    requires e in s && s[e] == [] && Decode([]) == Ok([])
    ensures Unfolds(s, true, e, Dir(e, map[])) && Unfolds(s, false, e, File(e))
  {
    hide Decode;
    assert Names([]) == {};
  }

  lemma EmptyClashUnseen(s: Store, rootA: Hash, rootB: Hash, e: Hash, x: Name)
    ensures var o, n := Dir(rootA, map[x := File(e)]), Dir(rootB, map[x := Dir(e, map[])]);
            SeenChange(s, o, n, [x]) == None && ExactChange(s, o, n, [x]).Some?
  {
    var o, n := Dir(rootA, map[x := File(e)]), Dir(rootB, map[x := Dir(e, map[])]);
    NodeAtSnoc(Some(o), [], x);
    NodeAtSnoc(Some(n), [], x);
    assert [] + [x] == [x];
    assert [x][..1] == [x];
    assert Shared(o, n, [x]);
  }

  // ----- applying a change list ---------------------------------------------------------

  function ApplyChange(m: map<Path, Hash>, c: Change): map<Path, Hash> {
    if c.newBlob.Some? then m[c.path := c.newBlob.value] else m - {c.path}
  }

  function ApplyAll(m: map<Path, Hash>, changes: seq<Change>): map<Path, Hash>
    decreases |changes|
  {
    if changes == [] then m else ApplyAll(ApplyChange(m, changes[0]), changes[1..])
  }

  lemma {:induction false} ApplyAllAt(m: map<Path, Hash>, changes: seq<Change>, p: Path)
    requires DistinctPaths(changes)
    decreases |changes|
    ensures var r := ApplyAll(m, changes);
            && ((forall c :: c in changes ==> c.path != p) ==> (p in r <==> p in m) && (p in m ==> r[p] == m[p]))
            && (forall c :: c in changes && c.path == p ==>
                  (p in r <==> c.newBlob.Some?) && (p in r ==> Some(r[p]) == c.newBlob))
  {
    if changes != [] {
      var rest := changes[1..];
      ApplyAllAt(ApplyChange(m, changes[0]), rest, p);
      assert forall c :: c in changes <==> c == changes[0] || c in rest;
      assert forall c :: c in rest ==> c.path != changes[0].path;
    }
  }

  /** Applying an exact change list to the old files gives the new files. */
  lemma ApplyingGivesNewTree(s: Store, o: Node, n: Node, changes: seq<Change>)
    requires ListsExact(s, o, n, changes)
    ensures ApplyAll(Flatten(o), changes) == Flatten(n)
  {
    var r := ApplyAll(Flatten(o), changes);
    forall p ensures (p in r <==> p in Flatten(n)) && (p in r ==> r[p] == Flatten(n)[p]) {
      ApplyAllAt(Flatten(o), changes, p);
      if c :| c in changes && c.path == p {
        assert ExactChange(s, o, n, p) == Some(c);
      } else {
        assert ExactChange(s, o, n, p) == None;
      }
    }
  }

  /** Applying what the walk reports gives the new files exactly when kinds are consistent. */
  lemma ApplyingSeenIff(s: Store, o: Node, n: Node, changes: seq<Change>)
    requires Unfolds(s, true, o.hash, o) && Unfolds(s, true, n.hash, n)
    requires ListsSeen(s, o, n, changes)
    ensures ApplyAll(Flatten(o), changes) == Flatten(n) <==> KindConsistent(o, n)
  {
    SeenListIsExactIff(s, o, n, changes);
    if KindConsistent(o, n) {
      ApplyingGivesNewTree(s, o, n, changes);
    } else {
      var q :| Shared(o, n, q) && NodeAt(Some(o), q).value.Dir? != NodeAt(Some(n), q).value.Dir?;
      assert q[..|q|] == q;
      assert Pruned(o, n, q);
      ApplyAllAt(Flatten(o), changes, q);
      assert q in Flatten(o) <==> q !in Flatten(n);
    }
  }

  // ----- the walk -----------------------------------------------------------------------

  ghost predicate DirHere(t: Node, q: Path, h: Hash) {
    var m := NodeAt(Some(t), q);
    m.Some? && m.value.Dir? && m.value.hash == h
  }

  /** No node on the way down to `q`, itself included, is shared. */
  ghost predicate Open(o: Node, n: Node, q: Path) {
    forall k :: 0 <= k <= |q| ==> !Shared(o, n, q[..k])
  }

  predicate IsDirNode(m: Option<Node>) {
    m.Some? && m.value.Dir?
  }

  /** A work item names a directory (or two) of the trees, below which nothing is reported yet. */
  ghost predicate ItemOk(o: Node, n: Node, w: WorkItem) {
    && Open(o, n, w.prefix)
    && match w
       case Compare(q, oh, nh) => DirHere(o, q, oh) && DirHere(n, q, nh)
       case AddAll(q, h) => DirHere(n, q, h) && !IsDirNode(NodeAt(Some(o), q))
       case DeleteAll(q, h) => DirHere(o, q, h) && !IsDirNode(NodeAt(Some(n), q))
  }

  ghost predicate Covered(stack: seq<WorkItem>, at: Path, todo: set<Name>, p: Path) {
    Within(at, todo, p) || exists i :: 0 <= i < |stack| && StrictlyUnder(stack[i].prefix, p)
  }

  /** The state of the walk: every path is either still covered, by one stack item or one name
      of the directory at hand, or settled, and then reported iff it must be. */
  ghost predicate Progress(s: Store, o: Node, n: Node, stack: seq<WorkItem>, changes: seq<Change>, at: Path, todo: set<Name>) {
    && (forall i :: 0 <= i < |stack| ==> ItemOk(o, n, stack[i]))
    && (forall i, j :: 0 <= i < j < |stack| ==> Apart(stack[i].prefix, stack[j].prefix))
    && (forall i, name :: 0 <= i < |stack| && name in todo ==> Apart(stack[i].prefix, at + [name]))
    && DistinctPaths(changes)
    && (forall c :: c in changes ==>
          !Covered(stack, at, todo, c.path) && SeenChange(s, o, n, c.path) == Some(c))
    && (forall p :: !Covered(stack, at, todo, p) && SeenChange(s, o, n, p).Some? ==>
          SeenChange(s, o, n, p).value in changes)
  }

  /** The work item a name calls for, from what the two sides have there. */
  function ItemDue(q: Path, a: Option<Node>, b: Option<Node>): seq<WorkItem> {
    if a.Some? && b.Some? && a.value.hash == b.value.hash then []
    else if IsDirNode(a) && IsDirNode(b) then [Compare(q, a.value.hash, b.value.hash)]
    else if IsDirNode(a) then [DeleteAll(q, a.value.hash)]
    else if IsDirNode(b) then [AddAll(q, b.value.hash)]
    else []
  }

  /** The change a name calls for. */
  function ChangeDue(s: Store, q: Path, a: Option<Node>, b: Option<Node>): seq<Change> {
    if a.Some? && b.Some? && a.value.hash == b.value.hash then []
    else match ChangeFor(s, q, FileHash(a), FileHash(b))
      case None => []
      case Some(c) => [c]
  }

  lemma OpenSnoc(o: Node, n: Node, at: Path, name: Name)
    requires Open(o, n, at)
    ensures Open(o, n, at + [name]) <==> !Shared(o, n, at + [name])
  {
    var q := at + [name];
    forall k | 0 <= k <= |at| ensures !Shared(o, n, q[..k]) {
      assert q[..k] == at[..k];
    }
    assert q[..|q|] == q;
  }

  /** Below a path where neither side has a directory, or both share a node, there is nothing
      to see. */
  lemma NothingBelow(s: Store, o: Node, n: Node, q: Path, p: Path)
    requires StrictlyUnder(q, p)
    requires Shared(o, n, q) || (!IsDirNode(NodeAt(Some(o), q)) && !IsDirNode(NodeAt(Some(n), q)))
    ensures SeenChange(s, o, n, p) == None
  {
    assert p == q + p[|q|..];
    NodeAtAppend(Some(o), q, p[|q|..]);
    NodeAtAppend(Some(n), q, p[|q|..]);
    if Shared(o, n, q) {
      assert p[..|q|] == q;
    } else {
      BelowNonDir(NodeAt(Some(o), q), p[|q|..]);
      BelowNonDir(NodeAt(Some(n), q), p[|q|..]);
    }
  }

  lemma ChangeDueIsSeen(s: Store, o: Node, n: Node, at: Path, name: Name)
    requires Open(o, n, at)
    ensures var q := at + [name]; var seen := SeenChange(s, o, n, q);
            ChangeDue(s, q, NodeAt(Some(o), q), NodeAt(Some(n), q)) == if seen.Some? then [seen.value] else []
  {
    var q := at + [name];
    OpenSnoc(o, n, at, name);
    assert q[..|q|] == q;
    if Shared(o, n, q) {
      assert Pruned(o, n, q);
    }
  }

  /** Dealing with one name: its item and its change take its place in the coverage. */
  lemma NameStep(s: Store, o: Node, n: Node, stack: seq<WorkItem>, changes: seq<Change>, at: Path,
                 todo: set<Name>, name: Name)
    requires Progress(s, o, n, stack, changes, at, todo) && name in todo && Open(o, n, at)
    ensures var q := at + [name]; var a, b := NodeAt(Some(o), q), NodeAt(Some(n), q);
            Progress(s, o, n, stack + ItemDue(q, a, b), changes + ChangeDue(s, q, a, b), at, todo - {name})
  {
    var q := at + [name];
    var a, b := NodeAt(Some(o), q), NodeAt(Some(n), q);
    var items, due := ItemDue(q, a, b), ChangeDue(s, q, a, b);
    OpenSnoc(o, n, at, name);
    ChangeDueIsSeen(s, o, n, at, name);
    CoverageStep(s, o, n, stack, items, at, todo, name);
    hide SeenChange, ChangeFor, Covered, FileAt, NodeAt, ChangeDue;
    var stack', changes' := stack + items, changes + due;
    forall c | c in changes' ensures SeenChange(s, o, n, c.path) == Some(c) && !Covered(stack', at, todo - {name}, c.path) {
      if c in changes { assert !Covered(stack, at, todo, c.path); }
    }
    forall i, j | 0 <= i < j < |changes'| ensures changes'[i].path != changes'[j].path {
      if j == |changes| {
        assert changes'[i] == changes[i] && changes[i] in changes;
        assert !Covered(stack, at, todo, changes[i].path);
        assert Covered(stack, at, todo, q);
      }
    }
    ItemsApart(o, n, stack, items, at, todo, name);
  }

  /** What stops being covered is the name's own path, and only it can carry a change. */
  lemma CoverageStep(s: Store, o: Node, n: Node, stack: seq<WorkItem>, items: seq<WorkItem>, at: Path,
                     todo: set<Name>, name: Name)
    requires name in todo
    requires var q := at + [name]; items == ItemDue(q, NodeAt(Some(o), q), NodeAt(Some(n), q))
    requires forall i :: 0 <= i < |stack| ==> Apart(stack[i].prefix, at + [name])
    ensures Covered(stack, at, todo, at + [name])
    ensures !Covered(stack + items, at, todo - {name}, at + [name])
    ensures forall p :: Covered(stack + items, at, todo - {name}, p) ==> Covered(stack, at, todo, p)
    ensures forall p :: p != at + [name] && Covered(stack, at, todo, p) && !Covered(stack + items, at, todo - {name}, p) ==>
              SeenChange(s, o, n, p) == None
  {
    var q := at + [name];
    NameCovered(stack, items, at, todo, name);
    CoverageAfter(stack, items, at, todo, name);
    hide SeenChange, NodeAt, Covered, Shared, IsDirNode;
    assert items == [] ==> Shared(o, n, q) || (!IsDirNode(NodeAt(Some(o), q)) && !IsDirNode(NodeAt(Some(n), q))) by {
      NoItemDue(q, NodeAt(Some(o), q), NodeAt(Some(n), q), o, n);
    }
    forall p | p != q && Covered(stack, at, todo, p) && !Covered(stack + items, at, todo - {name}, p)
      ensures SeenChange(s, o, n, p) == None
    {
      NothingBelow(s, o, n, q, p);
    }
  }

  lemma NoItemDue(q: Path, a: Option<Node>, b: Option<Node>, o: Node, n: Node)
    requires a == NodeAt(Some(o), q) && b == NodeAt(Some(n), q)
    ensures ItemDue(q, a, b) == [] ==> Shared(o, n, q) || (!IsDirNode(a) && !IsDirNode(b))
    ensures forall w :: w in ItemDue(q, a, b) ==> w.prefix == q
  {
  }

  /** A name is covered by being to do, and by nothing once it is done. */
  lemma NameCovered(stack: seq<WorkItem>, items: seq<WorkItem>, at: Path, todo: set<Name>, name: Name)
    requires name in todo && forall w :: w in items ==> w.prefix == at + [name]
    requires forall i :: 0 <= i < |stack| ==> Apart(stack[i].prefix, at + [name])
    ensures Covered(stack, at, todo, at + [name])
    ensures !Covered(stack + items, at, todo - {name}, at + [name])
  {
    var all := stack + items;
    forall i | 0 <= i < |all| ensures !StrictlyUnder(all[i].prefix, at + [name]) {
      if |stack| <= i {
        assert all[i] in items;
      } else {
        assert all[i] == stack[i];
      }
    }
  }

  /** Coverage after a name is taken: the paths below it stay covered only by its own item. */
  lemma CoverageAfter(stack: seq<WorkItem>, items: seq<WorkItem>, at: Path, todo: set<Name>, name: Name)
    requires name in todo && forall w :: w in items ==> w.prefix == at + [name]
    ensures forall p :: Covered(stack + items, at, todo - {name}, p) ==> Covered(stack, at, todo, p)
    ensures forall p :: Covered(stack, at, todo, p) && !Covered(stack + items, at, todo - {name}, p) ==>
              p == at + [name] || (StrictlyUnder(at + [name], p) && items == [])
  {
    var q := at + [name];
    var stack' := stack + items;
    assert forall i :: 0 <= i < |stack| ==> stack'[i] == stack[i];
    assert items != [] ==> stack'[|stack|].prefix == q;
    forall p | Within(at, todo, p) ensures Within(at, todo - {name}, p) || p == q || StrictlyUnder(q, p) {
      assert p[|at|] == name ==> p[..|at| + 1] == q;
      assert |p| == |at| + 1 && p[..|at| + 1] == q ==> p == q;
    }
    forall p | StrictlyUnder(q, p) ensures Within(at, todo, p) {
      assert p[..|at|] == q[..|at|] == at && p[|at|] == q[|at|];
    }
  }

  lemma ItemsApart(o: Node, n: Node, stack: seq<WorkItem>, items: seq<WorkItem>, at: Path, todo: set<Name>, name: Name)
    requires name in todo && Open(o, n, at)
    requires var q := at + [name]; items == ItemDue(q, NodeAt(Some(o), q), NodeAt(Some(n), q))
    requires Open(o, n, at + [name]) <==> !Shared(o, n, at + [name])
    requires forall i :: 0 <= i < |stack| ==> ItemOk(o, n, stack[i])
    requires forall i, j :: 0 <= i < j < |stack| ==> Apart(stack[i].prefix, stack[j].prefix)
    requires forall i, x :: 0 <= i < |stack| && x in todo ==> Apart(stack[i].prefix, at + [x])
    ensures var all := stack + items;
            && (forall i :: 0 <= i < |all| ==> ItemOk(o, n, all[i]))
            && (forall i, j :: 0 <= i < j < |all| ==> Apart(all[i].prefix, all[j].prefix))
            && (forall i, x :: 0 <= i < |all| && x in todo - {name} ==> Apart(all[i].prefix, at + [x]))
  {
    var q := at + [name];
    var all := stack + items;
    forall x | x in todo - {name} ensures Apart(q, at + [x]) {
      assert q[|at|] != (at + [x])[|at|];
    }
  }

  /** The children a popped item must look at: everything either of its directories lists. */
  ghost function ItemNames(o: Node, n: Node, w: WorkItem): set<Name>
    requires ItemOk(o, n, w)
  {
    match w
    case Compare(q, _, _) => NodeAt(Some(o), q).value.kids.Keys + NodeAt(Some(n), q).value.kids.Keys
    case AddAll(q, _) => NodeAt(Some(n), q).value.kids.Keys
    case DeleteAll(q, _) => NodeAt(Some(o), q).value.kids.Keys
  }

  lemma SeenUnderItem(s: Store, o: Node, n: Node, w: WorkItem, p: Path)
    requires ItemOk(o, n, w) && StrictlyUnder(w.prefix, p) && SeenChange(s, o, n, p).Some?
    ensures p[|w.prefix|] in ItemNames(o, n, w)
  {
    var q := w.prefix;
    assert p == q + p[|q|..];
    NodeAtAppend(Some(o), q, p[|q|..]);
    NodeAtAppend(Some(n), q, p[|q|..]);
    NodeAtNone(p[|q|..][1..]);
  }

  /** Popping an item turns its coverage into that of its names. */
  lemma PopStep(s: Store, o: Node, n: Node, stack: seq<WorkItem>, changes: seq<Change>)
    requires stack != [] && Progress(s, o, n, stack, changes, [], {})
    ensures var k := |stack| - 1; var w := stack[k];
            ItemOk(o, n, w) && Progress(s, o, n, stack[..k], changes, w.prefix, ItemNames(o, n, w))
  {
    hide SeenChange, ItemOk, FileAt, NodeAt, ItemNames;
    var k := |stack| - 1;
    var w := stack[k];
    var names := ItemNames(o, n, w);
    var rest := stack[..k];
    assert forall i :: 0 <= i < k ==> rest[i] == stack[i];
    forall p | Covered(rest, w.prefix, names, p) ensures Covered(stack, [], {}, p) {
      if i :| 0 <= i < |rest| && StrictlyUnder(rest[i].prefix, p) {
        assert stack[i] == rest[i];
      } else {
        assert StrictlyUnder(stack[k].prefix, p);
      }
    }
    forall p | !Covered(rest, w.prefix, names, p) && SeenChange(s, o, n, p).Some?
      ensures SeenChange(s, o, n, p).value in changes
    {
      if Covered(stack, [], {}, p) {
        assert StrictlyUnder(w.prefix, p);
        SeenUnderItem(s, o, n, w, p);
      }
    }
    forall i, name | 0 <= i < |rest| && name in names ensures Apart(rest[i].prefix, w.prefix + [name]) {
      ApartBelow(rest[i].prefix, w.prefix, name);
    }
  }

  lemma ApartBelow(p: Path, q: Path, name: Name)
    requires Apart(p, q)
    ensures Apart(p, q + [name])
  {
    assert (q + [name])[..|q|] == q;
    assert |p| == |q| + 1 && p <= q + [name] ==> p == q + [name];
    assert |p| <= |q| && p <= q + [name] ==> p <= q;
  }

  lemma StartProgress(s: Store, o: Node, n: Node)
    requires o.Dir? && n.Dir? && o.hash != n.hash
    ensures Progress(s, o, n, [Compare([], o.hash, n.hash)], [], [], {})
  {
    var stack := [Compare([], o.hash, n.hash)];
    forall p | !Covered(stack, [], {}, p) ensures SeenChange(s, o, n, p) == None {
      assert !StrictlyUnder(stack[0].prefix, p);
      assert p == [];
    }
  }

  lemma EndProgress(s: Store, o: Node, n: Node, stack: seq<WorkItem>, changes: seq<Change>, at: Path)
    requires Progress(s, o, n, stack, changes, at, {})
    ensures Progress(s, o, n, stack, changes, [], {})
    ensures stack == [] ==> ListsSeen(s, o, n, changes)
  {
  }

  // ----- unfolded work left on the stack ------------------------------------------------

  ghost function DirsAt(m: Option<Node>): nat {
    if m.Some? then DirCount(m.value) else 0
  }

  /** Directories below a work item, on the sides it walks. */
  ghost function Weight(o: Node, n: Node, w: WorkItem): nat {
    var a, b := DirsAt(NodeAt(Some(o), w.prefix)), DirsAt(NodeAt(Some(n), w.prefix));
    match w
    case Compare(_, _, _) => a + b
    case AddAll(_, _) => b
    case DeleteAll(_, _) => a
  }

  ghost function TotalWeight(o: Node, n: Node, stack: seq<WorkItem>): nat {
    if stack == [] then 0
    else Weight(o, n, stack[|stack| - 1]) + TotalWeight(o, n, stack[..|stack| - 1])
  }

  ghost function KidsWeight(m: Option<Node>, names: set<Name>): nat {
    if IsDirNode(m) then DirsOf(m.value, names * m.value.kids.Keys) else 0
  }

  lemma PopWeight(o: Node, n: Node, stack: seq<WorkItem>)
    requires stack != [] && ItemOk(o, n, stack[|stack| - 1])
    ensures var w := stack[|stack| - 1]; var names := ItemNames(o, n, w);
            TotalWeight(o, n, stack) >=
              1 + TotalWeight(o, n, stack[..|stack| - 1])
              + KidsWeight(NodeAt(Some(o), w.prefix), names) + KidsWeight(NodeAt(Some(n), w.prefix), names)
  {
    var w := stack[|stack| - 1];
    var names := ItemNames(o, n, w);
    var a, b := NodeAt(Some(o), w.prefix), NodeAt(Some(n), w.prefix);
    if IsDirNode(a) {
      assert names <= a.value.kids.Keys || w.Compare?;
      assert w.DeleteAll? || w.Compare? ==> names * a.value.kids.Keys == a.value.kids.Keys;
    }
    if IsDirNode(b) { assert w.AddAll? || w.Compare? ==> names * b.value.kids.Keys == b.value.kids.Keys; }
  }

  lemma KidsWeightTake(m: Option<Node>, names: set<Name>, name: Name)
    requires name in names
    ensures KidsWeight(m, names) == DirsAt(Kid(m, name)) + KidsWeight(m, names - {name})
  {
    if IsDirNode(m) {
      var keys := m.value.kids.Keys;
      if name in keys {
        DirsOfTake(m.value, names * keys, name);
        assert (names - {name}) * keys == names * keys - {name};
      } else {
        assert (names - {name}) * keys == names * keys;
      }
    }
  }

  /** Dealing with one name never adds work. */
  lemma NameWeight(o: Node, n: Node, stack: seq<WorkItem>, at: Path, todo: set<Name>, name: Name)
    requires name in todo
    ensures var q := at + [name];
            var here, there := NodeAt(Some(o), at), NodeAt(Some(n), at);
            TotalWeight(o, n, stack + ItemDue(q, NodeAt(Some(o), q), NodeAt(Some(n), q)))
              + KidsWeight(here, todo - {name}) + KidsWeight(there, todo - {name})
            <= TotalWeight(o, n, stack) + KidsWeight(here, todo) + KidsWeight(there, todo)
  {
    var q := at + [name];
    NodeAtSnoc(Some(o), at, name);
    NodeAtSnoc(Some(n), at, name);
    KidsWeightTake(NodeAt(Some(o), at), todo, name);
    KidsWeightTake(NodeAt(Some(n), at), todo, name);
    var items := ItemDue(q, NodeAt(Some(o), q), NodeAt(Some(n), q));
    if items == [] {
      assert stack + items == stack;
    } else {
      assert (stack + items)[..|stack|] == stack;
    }
  }

  // ----- loading ------------------------------------------------------------------------

  method LoadTree(s: Store, h: Hash) returns (r: Result<seq<Entry>, DiffError>)
    ensures r == if h !in s then Err(TreeMissing(h))
                 else match Decode(s[h]) case Ok(es) => Ok(es) case Err(e) => Err(BadTree(e))
  {
    if h !in s {
      return Err(TreeMissing(h));
    }
    var decoded := DeserializeTree(s[h]);
    return match decoded case Ok(es) => Ok(es) case Err(e) => Err(BadTree(e));
  }

  function BlobSize(s: Store, h: Hash): (r: Result<nat, DiffError>)
    ensures r.Ok? <==> h in s
    ensures r.Ok? ==> r.value == SizeOf(s, h)
  {
    if h in s then Ok(|s[h]|) else Err(BlobMissing(h))
  }

  /** Entries collected into a map by name; a later entry replaces an earlier one. */
  function ByName(es: seq<Entry>): map<Name, Entry> {
    if es == [] then map[] else ByName(es[..|es| - 1])[es[|es| - 1].name := es[|es| - 1]]
  }

  lemma {:induction false} ByNameSpec(es: seq<Entry>)
    requires DistinctNames(es)
    ensures ByName(es).Keys == Names(es)
    ensures forall i :: 0 <= i < |es| ==> es[i].name in ByName(es) && ByName(es)[es[i].name] == es[i]
  {
    if es != [] {
      var init := es[..|es| - 1];
      ByNameSpec(init);
      assert es == init + [es[|es| - 1]];
      assert forall i :: 0 <= i < |init| ==> init[i] == es[i];
      assert Names(es) == Names(init) + {es[|es| - 1].name};
    }
  }

  /** A directory entry and the node it stands for. */
  ghost predicate Mirrors(s: Store, e: Entry, m: Option<Node>) {
    m.Some? && m.value.hash == e.hash && m.value.Dir? == IsDir(e) && e.hash in s
  }

  ghost predicate MapMirrors(s: Store, t: Node, at: Path, es: map<Name, Entry>) {
    forall name ::
      if name in es then Mirrors(s, es[name], NodeAt(Some(t), at + [name]))
      else NodeAt(Some(t), at + [name]) == None
  }

  lemma EntryMirrors(s: Store, t: Node, at: Path, h: Hash, i: nat)
    requires Unfolds(s, true, t.hash, t) && DirHere(t, at, h)
    ensures h in s && Decode(s[h]).Ok?
    ensures i < |Decode(s[h]).value| ==>
              var e := Decode(s[h]).value[i]; Mirrors(s, e, NodeAt(Some(t), at + [e.name]))
  {
    UnfoldsAt(s, true, t.hash, t, at);
    var d := NodeAt(Some(t), at).value;
    if i < |Decode(s[h]).value| {
      KidOfEntry(s, d, i);
      NodeAtSnoc(Some(t), at, Decode(s[h]).value[i].name);
    }
  }

  lemma LoadedMirrors(s: Store, t: Node, at: Path, h: Hash)
    requires Unfolds(s, true, t.hash, t) && DirHere(t, at, h)
    ensures h in s && Decode(s[h]).Ok?
    ensures DistinctNames(Decode(s[h]).value)
    ensures MapMirrors(s, t, at, ByName(Decode(s[h]).value))
    ensures ByName(Decode(s[h]).value).Keys == NodeAt(Some(t), at).value.kids.Keys == Names(Decode(s[h]).value)
  {
    UnfoldsAt(s, true, t.hash, t, at);
    var d := NodeAt(Some(t), at).value;
    UnfoldsDir(s, d);
    var es := Decode(s[h]).value;
    ByNameSpec(es);
    hide Unfolds;
    forall name
      ensures if name in ByName(es) then Mirrors(s, ByName(es)[name], NodeAt(Some(t), at + [name]))
              else NodeAt(Some(t), at + [name]) == None
    {
      NodeAtSnoc(Some(t), at, name);
      if name in ByName(es) {
        var i :| 0 <= i < |es| && es[i].name == name;
        EntryMirrors(s, t, at, h, i);
      }
    }
  }

  /** A tree load the walk may make: the two sides differ at the path and at every path above
      it, and the hash is that of a directory there. */
  ghost predicate JustifiedLoad(o: Node, n: Node, load: (Path, Hash)) {
    Open(o, n, load.0) && (DirHere(o, load.0, load.1) || DirHere(n, load.0, load.1))
  }

  type Step = Result<(seq<WorkItem>, seq<Change>), DiffError>

  /** The arms for a name both sides list: what it puts on the stack and what it reports. A
      change of kind deletes the old side and adds the new one. */
  function CompareOne(s: Store, path: Path, oldE: Entry, newE: Entry): Step {
    if oldE.hash == newE.hash then Ok(([], []))
    else if IsDir(oldE) && IsDir(newE) then Ok(([Compare(path, oldE.hash, newE.hash)], []))
    else if !IsDir(oldE) && !IsDir(newE) then
      var oldSize :- BlobSize(s, oldE.hash);
      var newSize :- BlobSize(s, newE.hash);
      Ok(([], [Change(path, Modified, Some(oldSize), Some(newSize), Some(oldE.hash), Some(newE.hash))]))
    else if IsDir(oldE) then
      var newSize :- BlobSize(s, newE.hash);
      Ok(([DeleteAll(path, oldE.hash)], [Change(path, Added, None, Some(newSize), None, Some(newE.hash))]))
    else
      var oldSize :- BlobSize(s, oldE.hash);
      Ok(([AddAll(path, newE.hash)], [Change(path, Deleted, Some(oldSize), None, Some(oldE.hash), None)]))
  }

  /** A name only the old side lists. */
  function DeleteOne(s: Store, path: Path, e: Entry): Step {
    if IsDir(e) then Ok(([DeleteAll(path, e.hash)], []))
    else
      var oldSize :- BlobSize(s, e.hash);
      Ok(([], [Change(path, Deleted, Some(oldSize), None, Some(e.hash), None)]))
  }

  /** A name only the new side lists. */
  function AddOne(s: Store, path: Path, e: Entry): Step {
    if IsDir(e) then Ok(([AddAll(path, e.hash)], []))
    else
      var newSize :- BlobSize(s, e.hash);
      Ok(([], [Change(path, Added, None, Some(newSize), None, Some(e.hash))]))
  }

  /** The arm taken for a name, from the entries the two directories have for it. */
  function NameArm(s: Store, path: Path, oldE: Option<Entry>, newE: Option<Entry>): Step {
    match (oldE, newE)
    case (Some(a), Some(b)) => CompareOne(s, path, a, b)
    case (Some(a), None) => DeleteOne(s, path, a)
    case (None, Some(b)) => AddOne(s, path, b)
    case (None, None) => Ok(([], []))
  }

  // ----- what a walk over any store has gone through ------------------------------------

  /** A name to settle, with the entries the two directories have for it. */
  datatype Arm = Arm(name: Name, oldEntry: Option<Entry>, newEntry: Option<Entry>)

  function Outcome(s: Store, prefix: Path, a: Arm): Step {
    NameArm(s, prefix + [a.name], a.oldEntry, a.newEntry)
  }

  function Lookup(es: map<Name, Entry>, name: Name): Option<Entry> {
    if name in es then Some(es[name]) else None
  }

  function PairArms(a: map<Name, Entry>, b: map<Name, Entry>, names: set<Name>): set<Arm> {
    set name | name in names :: Arm(name, Lookup(a, name), Lookup(b, name))
  }

  function AddArms(es: seq<Entry>): set<Arm> {
    set e | e in es :: Arm(e.name, None, Some(e))
  }

  function DeleteArms(es: seq<Entry>): set<Arm> {
    set e | e in es :: Arm(e.name, Some(e), None)
  }

  ghost predicate Readable(s: Store, h: Hash) {
    h in s && Decode(s[h]).Ok?
  }

  ghost predicate ItemReadable(s: Store, w: WorkItem) {
    match w
    case Compare(_, a, b) => a == b || (Readable(s, a) && Readable(s, b))
    case AddAll(_, h) => Readable(s, h)
    case DeleteAll(_, h) => Readable(s, h)
  }

  /** The names an item is about; none when both sides are one hash. */
  ghost function ItemArms(s: Store, w: WorkItem): set<Arm>
    requires ItemReadable(s, w)
  {
    match w
    case Compare(_, a, b) =>
      if a == b then {} else
        var oldAll, newAll := ByName(Decode(s[a]).value), ByName(Decode(s[b]).value);
        PairArms(oldAll, newAll, oldAll.Keys + newAll.Keys)
    case AddAll(_, h) => AddArms(Decode(s[h]).value)
    case DeleteAll(_, h) => DeleteArms(Decode(s[h]).value)
  }

  ghost predicate LoadFails(s: Store, h: Hash, e: DiffError) {
    if h !in s then e == TreeMissing(h) else Decode(s[h]).Err? && e == BadTree(Decode(s[h]).error)
  }

  /** Why an item fails: one of its own trees cannot be read, or the blob of one of its names is
      not there. */
  ghost predicate ItemFails(s: Store, w: WorkItem, e: DiffError) {
    || (w.Compare? && w.oldHash != w.newHash && (LoadFails(s, w.oldHash, e) || LoadFails(s, w.newHash, e)))
    || (!w.Compare? && LoadFails(s, w.hash, e))
    || (ItemReadable(s, w) && exists a :: a in ItemArms(s, w) && Outcome(s, w.prefix, a) == Err(e))
  }

  /** Exactly what the outcomes of `arms` call for has been put on the stack and reported. */
  ghost predicate Accounted(s: Store, prefix: Path, arms: set<Arm>, stackIn: seq<WorkItem>, changesIn: seq<Change>,
                            stack: seq<WorkItem>, changes: seq<Change>) {
    && stackIn <= stack && changesIn <= changes
    && (forall a :: a in arms ==> Outcome(s, prefix, a).Ok?)
    && (forall a, w :: a in arms && w in Outcome(s, prefix, a).value.0 ==> w in stack)
    && (forall a, c :: a in arms && c in Outcome(s, prefix, a).value.1 ==> c in changes)
    && (forall w :: w in stack && w !in stackIn ==> exists a :: a in arms && w in Outcome(s, prefix, a).value.0)
    && (forall c :: c in changes && c !in changesIn ==> exists a :: a in arms && c in Outcome(s, prefix, a).value.1)
  }

  lemma AccountedOne(s: Store, prefix: Path, arms: set<Arm>, stackIn: seq<WorkItem>, changesIn: seq<Change>,
                     stack: seq<WorkItem>, changes: seq<Change>, a: Arm)
    requires Accounted(s, prefix, arms, stackIn, changesIn, stack, changes) && Outcome(s, prefix, a).Ok?
    ensures var (items, more) := Outcome(s, prefix, a).value;
            Accounted(s, prefix, arms + {a}, stackIn, changesIn, stack + items, changes + more)
  {
    hide Outcome;
    var (items, more) := Outcome(s, prefix, a).value;
    assert a in arms + {a};
    forall w | w in stack + items && w !in stackIn
      ensures exists b :: b in arms + {a} && w in Outcome(s, prefix, b).value.0
    {
      if w !in items {
        var b :| b in arms && w in Outcome(s, prefix, b).value.0;
        assert b in arms + {a};
      }
    }
    forall c | c in changes + more && c !in changesIn
      ensures exists b :: b in arms + {a} && c in Outcome(s, prefix, b).value.1
    {
      if c !in more {
        var b :| b in arms && c in Outcome(s, prefix, b).value.1;
        assert b in arms + {a};
      }
    }
  }

  lemma PairArmsMore(a: map<Name, Entry>, b: map<Name, Entry>, names: set<Name>, name: Name)
    ensures PairArms(a, b, names + {name}) == PairArms(a, b, names) + {Arm(name, Lookup(a, name), Lookup(b, name))}
  {
    var x := Arm(name, Lookup(a, name), Lookup(b, name));
    forall y ensures y in PairArms(a, b, names + {name}) <==> y in PairArms(a, b, names) + {x} {
    }
  }

  lemma EntryArmsMore(es: seq<Entry>, i: nat)
    requires i < |es|
    ensures AddArms(es[..i + 1]) == AddArms(es[..i]) + {Arm(es[i].name, None, Some(es[i]))}
    ensures DeleteArms(es[..i + 1]) == DeleteArms(es[..i]) + {Arm(es[i].name, Some(es[i]), None)}
  {
    assert es[..i + 1] == es[..i] + [es[i]];
  }

  lemma PairArmIn(a: map<Name, Entry>, b: map<Name, Entry>, names: set<Name>, name: Name)
    requires name in names
    ensures Arm(name, Lookup(a, name), Lookup(b, name)) in PairArms(a, b, names)
  {
  }

  /** A name only one of the two directories lists. */
  lemma OneSidedPair(s: Store, prefix: Path, a: map<Name, Entry>, b: map<Name, Entry>, name: Name)
    requires (name in a) != (name in b)
    ensures Outcome(s, prefix, Arm(name, Lookup(a, name), Lookup(b, name)))
            == if name in a then DeleteOne(s, prefix + [name], a[name]) else AddOne(s, prefix + [name], b[name])
  {
  }

  lemma OneSided(s: Store, prefix: Path, name: Name, e: Entry)
    ensures Outcome(s, prefix, Arm(name, Some(e), None)) == DeleteOne(s, prefix + [name], e)
    ensures Outcome(s, prefix, Arm(name, None, Some(e))) == AddOne(s, prefix + [name], e)
  {
  }

  lemma EntryArmIn(es: seq<Entry>, e: Entry)
    requires e in es
    ensures Arm(e.name, None, Some(e)) in AddArms(es)
    ensures Arm(e.name, Some(e), None) in DeleteArms(es)
  {
  }

  lemma NothingListed(s: Store, prefix: Path, stack: seq<WorkItem>, changes: seq<Change>)
    ensures Accounted(s, prefix, AddArms([]), stack, changes, stack, changes)
    ensures Accounted(s, prefix, DeleteArms([]), stack, changes, stack, changes)
  {
  }

  lemma NothingAccounted(s: Store, prefix: Path, a: map<Name, Entry>, b: map<Name, Entry>, stack: seq<WorkItem>, changes: seq<Change>)
    ensures Accounted(s, prefix, PairArms(a, b, {}), stack, changes, stack, changes)
    ensures Accounted(s, prefix, {}, stack, changes, stack, changes)
  {
  }

  /** Where a walk stands: the items it took, those still on its stack, and its report. Every item
      taken was readable and all its names are accounted for; nothing else was pushed or reported. */
  ghost predicate Walked(s: Store, start: WorkItem, turns: seq<WorkItem>, stack: seq<WorkItem>, changes: seq<Change>) {
    && (start in turns || start in stack)
    && (forall w :: w in turns ==> ItemReadable(s, w))
    && (forall w, a :: w in turns && a in ItemArms(s, w) ==> Outcome(s, w.prefix, a).Ok?)
    && (forall w, a, v :: w in turns && a in ItemArms(s, w) && v in Outcome(s, w.prefix, a).value.0 ==> v in turns || v in stack)
    && (forall w, a, c :: w in turns && a in ItemArms(s, w) && c in Outcome(s, w.prefix, a).value.1 ==> c in changes)
    && (forall v :: (v in turns || v in stack) && v != start ==>
          exists w, a :: w in turns && a in ItemArms(s, w) && v in Outcome(s, w.prefix, a).value.0)
    && (forall c :: c in changes ==> exists w, a :: w in turns && a in ItemArms(s, w) && c in Outcome(s, w.prefix, a).value.1)
  }

  /** A turn that takes the top item and accounts for it. */
  lemma WalkedOne(s: Store, start: WorkItem, turns: seq<WorkItem>, stackIn: seq<WorkItem>, changesIn: seq<Change>,
                  stack: seq<WorkItem>, changes: seq<Change>)
    requires stackIn != [] && Walked(s, start, turns, stackIn, changesIn)
    requires var w := stackIn[|stackIn| - 1];
             ItemReadable(s, w) && Accounted(s, w.prefix, ItemArms(s, w), stackIn[..|stackIn| - 1], changesIn, stack, changes)
    ensures Walked(s, start, turns + [stackIn[|stackIn| - 1]], stack, changes)
  {
    hide Outcome, ItemArms, ItemReadable;
    var top, below := stackIn[|stackIn| - 1], stackIn[..|stackIn| - 1];
    var taken := turns + [top];
    assert stackIn == below + [top];
    assert top in taken;
    assert forall v :: v in stackIn ==> v in taken || v in stack;
    assert forall c :: c in changesIn ==> c in changes;
    forall w, a, c | w in taken && a in ItemArms(s, w) && c in Outcome(s, w.prefix, a).value.1
      ensures c in changes
    {
    }
    forall w, a, v | w in taken && a in ItemArms(s, w) && v in Outcome(s, w.prefix, a).value.0
      ensures v in taken || v in stack
    {
    }
    forall v | (v in taken || v in stack) && v != start
      ensures exists w, a :: w in taken && a in ItemArms(s, w) && v in Outcome(s, w.prefix, a).value.0
    {
      if v in turns || v in stackIn {
        var w, a :| w in turns && a in ItemArms(s, w) && v in Outcome(s, w.prefix, a).value.0;
        assert w in taken;
      } else {
        var a :| a in ItemArms(s, top) && v in Outcome(s, top.prefix, a).value.0;
      }
    }
    forall c | c in changes
      ensures exists w, a :: w in taken && a in ItemArms(s, w) && c in Outcome(s, w.prefix, a).value.1
    {
      if c in changesIn {
        var w, a :| w in turns && a in ItemArms(s, w) && c in Outcome(s, w.prefix, a).value.1;
        assert w in taken;
      } else {
        var a :| a in ItemArms(s, top) && c in Outcome(s, top.prefix, a).value.1;
      }
    }
  }

  lemma StartWalk(s: Store, start: WorkItem)
    ensures Walked(s, start, [], [start], [])
  {
  }

  /** Every blob a change names is stored, and its size is the blob's length. */
  ghost predicate SizesTrue(s: Store, changes: seq<Change>) {
    forall c :: c in changes ==>
      && (c.oldBlob.Some? || c.newBlob.Some?)
      && (c.oldBlob.Some? ==> c.oldBlob.value in s && c.oldSize == Some(|s[c.oldBlob.value]|))
      && (c.newBlob.Some? ==> c.newBlob.value in s && c.newSize == Some(|s[c.newBlob.value]|))
  }

  lemma OutcomeSizes(s: Store, prefix: Path, a: Arm, c: Change)
    requires Outcome(s, prefix, a).Ok? && c in Outcome(s, prefix, a).value.1
    ensures c.oldBlob.Some? ==> c.oldBlob.value in s && c.oldSize == Some(|s[c.oldBlob.value]|)
    ensures c.newBlob.Some? ==> c.newBlob.value in s && c.newSize == Some(|s[c.newBlob.value]|)
    ensures c.oldBlob.Some? || c.newBlob.Some?
  {
  }

  /** So over any store the blobs of a report are stored and its sizes are true. */
  lemma WalkedSizes(s: Store, start: WorkItem, turns: seq<WorkItem>, stack: seq<WorkItem>, changes: seq<Change>)
    requires Walked(s, start, turns, stack, changes)
    ensures SizesTrue(s, changes)
  {
    hide Outcome, ItemArms, ItemReadable;
    forall c | c in changes
      ensures c.oldBlob.Some? || c.newBlob.Some?
      ensures c.oldBlob.Some? ==> c.oldBlob.value in s && c.oldSize == Some(|s[c.oldBlob.value]|)
      ensures c.newBlob.Some? ==> c.newBlob.value in s && c.newSize == Some(|s[c.newBlob.value]|)
    {
      var w, a :| w in turns && a in ItemArms(s, w) && c in Outcome(s, w.prefix, a).value.1;
      OutcomeSizes(s, w.prefix, a, c);
    }
  }

  ghost predicate MirrorsOpt(s: Store, e: Option<Entry>, m: Option<Node>) {
    if e.Some? then Mirrors(s, e.value, m) else m == None
  }

  /** The arms of the code do what the two trees call for. */
  lemma ArmIsDue(s: Store, q: Path, oldE: Option<Entry>, newE: Option<Entry>, a: Option<Node>, b: Option<Node>)
    requires MirrorsOpt(s, oldE, a) && MirrorsOpt(s, newE, b)
    ensures NameArm(s, q, oldE, newE) == Ok((ItemDue(q, a, b), ChangeDue(s, q, a, b)))
  {
  }

  /** Unfolded work left: on the stack, and under the names of the directory at hand. */
  ghost function Budget(o: Node, n: Node, stack: seq<WorkItem>, at: Path, todo: set<Name>): nat {
    TotalWeight(o, n, stack) + KidsWeight(NodeAt(Some(o), at), todo) + KidsWeight(NodeAt(Some(n), at), todo)
  }

  /** The walk in the middle of a directory. */
  ghost predicate Midway(s: Store, o: Node, n: Node, stack: seq<WorkItem>, changes: seq<Change>, at: Path,
                         todo: set<Name>, limit: nat) {
    Open(o, n, at) && Progress(s, o, n, stack, changes, at, todo) && Budget(o, n, stack, at, todo) <= limit
  }

  /** One name settled: the arm succeeds, and coverage and remaining work are kept. */
  lemma SettleName(s: Store, o: Node, n: Node, stack: seq<WorkItem>, changes: seq<Change>, at: Path,
                   todo: set<Name>, name: Name, limit: nat, oldE: Option<Entry>, newE: Option<Entry>)
    requires Midway(s, o, n, stack, changes, at, todo, limit) && name in todo
    requires MirrorsOpt(s, oldE, NodeAt(Some(o), at + [name]))
    requires MirrorsOpt(s, newE, NodeAt(Some(n), at + [name]))
    ensures var arm := NameArm(s, at + [name], oldE, newE);
            arm.Ok? && Midway(s, o, n, stack + arm.value.0, changes + arm.value.1, at, todo - {name}, limit)
  {
    var q := at + [name];
    ArmIsDue(s, q, oldE, newE, NodeAt(Some(o), q), NodeAt(Some(n), q));
    NameStep(s, o, n, stack, changes, at, todo, name);
    NameWeight(o, n, stack, at, todo, name);
  }

  /** The same, with the account of what was done: for a name of either directory. */
  lemma SettlePair(s: Store, o: Node, n: Node, ok: bool, prefix: Path, oldAll: map<Name, Entry>, newAll: map<Name, Entry>,
                   settled: set<Name>, todo: set<Name>, stackIn: seq<WorkItem>, changesIn: seq<Change>,
                   stack: seq<WorkItem>, changes: seq<Change>, name: Name, limit: nat)
    requires name in todo && name in oldAll.Keys + newAll.Keys
    requires ok ==>
      && MapMirrors(s, o, prefix, oldAll) && MapMirrors(s, n, prefix, newAll)
      && Midway(s, o, n, stack, changes, prefix, todo, limit)
    requires Accounted(s, prefix, PairArms(oldAll, newAll, settled), stackIn, changesIn, stack, changes)
    ensures var arm := Outcome(s, prefix, Arm(name, Lookup(oldAll, name), Lookup(newAll, name)));
            && (ok ==> arm.Ok? && Midway(s, o, n, stack + arm.value.0, changes + arm.value.1, prefix, todo - {name}, limit))
            && (arm.Ok? ==> Accounted(s, prefix, PairArms(oldAll, newAll, settled + {name}), stackIn, changesIn,
                                      stack + arm.value.0, changes + arm.value.1))
            && (arm.Err? ==> exists a :: a in PairArms(oldAll, newAll, oldAll.Keys + newAll.Keys) && Outcome(s, prefix, a) == arm)
  {
    hide Midway, Mirrors, NameArm, Accounted;
    var a := Arm(name, Lookup(oldAll, name), Lookup(newAll, name));
    if ok {
      SettleName(s, o, n, stack, changes, prefix, todo, name, limit, a.oldEntry, a.newEntry);
    }
    PairArmIn(oldAll, newAll, oldAll.Keys + newAll.Keys, name);
    PairArmsMore(oldAll, newAll, settled, name);
    if Outcome(s, prefix, a).Ok? {
      AccountedOne(s, prefix, PairArms(oldAll, newAll, settled), stackIn, changesIn, stack, changes, a);
    }
  }

  lemma TwoSided(s: Store, prefix: Path, name: Name, a: Entry, b: Entry)
    ensures Outcome(s, prefix, Arm(name, Some(a), Some(b))) == CompareOne(s, prefix + [name], a, b)
  {
  }

  /** The names both sides list; what is left of the two maps are the names of one side only. */
  method CompareShared(s: Store, prefix: Path, oldAll: map<Name, Entry>, newAll: map<Name, Entry>,
                       stackIn: seq<WorkItem>, changesIn: seq<Change>,
                       ghost o: Node, ghost n: Node, ghost ok: bool, ghost limit: nat)
    returns (r: Step, oldMap: map<Name, Entry>, newMap: map<Name, Entry>)
    requires ok ==>
      && MapMirrors(s, o, prefix, oldAll) && MapMirrors(s, n, prefix, newAll)
      && Midway(s, o, n, stackIn, changesIn, prefix, oldAll.Keys + newAll.Keys, limit)
    ensures ok ==> r.Ok? && Midway(s, o, n, r.value.0, r.value.1, prefix, oldMap.Keys + newMap.Keys, limit)
    ensures r.Ok? ==> oldMap.Keys == oldAll.Keys - newAll.Keys && newMap.Keys == newAll.Keys - oldAll.Keys
    ensures forall x :: x in oldMap ==> x in oldAll && oldMap[x] == oldAll[x]
    ensures forall x :: x in newMap ==> x in newAll && newMap[x] == newAll[x]
    ensures if r.Ok? then Accounted(s, prefix, PairArms(oldAll, newAll, oldAll.Keys * newAll.Keys), stackIn, changesIn,
                                    r.value.0, r.value.1)
            else exists a :: a in PairArms(oldAll, newAll, oldAll.Keys + newAll.Keys) && Outcome(s, prefix, a) == r
  {
    hide Midway, MapMirrors, CompareOne, Outcome, Accounted, PairArms;
    var stack, changes := stackIn, changesIn;
    oldMap, newMap := oldAll, newAll;
    var shared := oldMap.Keys * newMap.Keys;
    ghost var settled: set<Name> := {};
    NothingAccounted(s, prefix, oldAll, newAll, stack, changes);
    while shared != {}
      invariant shared == oldMap.Keys * newMap.Keys
      invariant oldMap.Keys <= oldAll.Keys && (forall x :: x in oldMap ==> oldMap[x] == oldAll[x])
      invariant newMap.Keys <= newAll.Keys && (forall x :: x in newMap ==> newMap[x] == newAll[x])
      invariant oldMap.Keys - shared == oldAll.Keys - newAll.Keys
      invariant newMap.Keys - shared == newAll.Keys - oldAll.Keys
      invariant ok ==> Midway(s, o, n, stack, changes, prefix, oldMap.Keys + newMap.Keys, limit)
      invariant settled + shared == oldAll.Keys * newAll.Keys
      invariant Accounted(s, prefix, PairArms(oldAll, newAll, settled), stackIn, changesIn, stack, changes)
      decreases shared
    {
      var name :| name in shared;
      SettlePair(s, o, n, ok, prefix, oldAll, newAll, settled, oldMap.Keys + newMap.Keys, stackIn, changesIn,
                 stack, changes, name, limit);
      TwoSided(s, prefix, name, oldMap[name], newMap[name]);
      assert oldMap.Keys + newMap.Keys - {name} == (oldMap - {name}).Keys + (newMap - {name}).Keys;
      var step := CompareOne(s, prefix + [name], oldMap[name], newMap[name]);
      if step.Err? {
        return step, oldMap, newMap;
      }
      settled := settled + {name};
      oldMap, newMap, shared := oldMap - {name}, newMap - {name}, shared - {name};
      stack, changes := stack + step.value.0, changes + step.value.1;
    }
    assert settled == oldAll.Keys * newAll.Keys;
    return Ok((stack, changes)), oldMap, newMap;
  }

  /** The `Compare` arm: names on both sides, then names only on the old side, then names only
      on the new side. */
  method CompareDirs(s: Store, prefix: Path, oldEntries: seq<Entry>, newEntries: seq<Entry>,
                     stackIn: seq<WorkItem>, changesIn: seq<Change>,
                     ghost o: Node, ghost n: Node, ghost ok: bool, ghost limit: nat)
    returns (r: Step)
    requires ok ==>
      && MapMirrors(s, o, prefix, ByName(oldEntries)) && MapMirrors(s, n, prefix, ByName(newEntries))
      && Midway(s, o, n, stackIn, changesIn, prefix, ByName(oldEntries).Keys + ByName(newEntries).Keys, limit)
    ensures ok ==> r.Ok? && Midway(s, o, n, r.value.0, r.value.1, prefix, {}, limit)
    ensures var oldAll, newAll := ByName(oldEntries), ByName(newEntries);
            var arms := PairArms(oldAll, newAll, oldAll.Keys + newAll.Keys);
            if r.Ok? then Accounted(s, prefix, arms, stackIn, changesIn, r.value.0, r.value.1)
            else exists a :: a in arms && Outcome(s, prefix, a) == r
  {
    hide Midway, ByName, CompareOne, AddOne, DeleteOne, Accounted, PairArms, Outcome, MapMirrors, Lookup, NameArm;
    ghost var oldAll, newAll := ByName(oldEntries), ByName(newEntries);
    var both, oldMap, newMap := CompareShared(s, prefix, ByName(oldEntries), ByName(newEntries), stackIn, changesIn, o, n, ok, limit);
    ghost var names := oldAll.Keys + newAll.Keys;
    if both.Err? {
      return both;
    }
    var (stack, changes) := both.value;
    ghost var settled := oldAll.Keys * newAll.Keys;

    while oldMap != map[]
      invariant oldMap.Keys <= oldAll.Keys - newAll.Keys && (forall x :: x in oldMap ==> oldMap[x] == oldAll[x])
      invariant newMap.Keys == newAll.Keys - oldAll.Keys && (forall x :: x in newMap ==> newMap[x] == newAll[x])
      invariant ok ==> Midway(s, o, n, stack, changes, prefix, oldMap.Keys + newMap.Keys, limit)
      invariant settled + oldMap.Keys == oldAll.Keys
      invariant Accounted(s, prefix, PairArms(oldAll, newAll, settled), stackIn, changesIn, stack, changes)
      decreases oldMap.Keys
    {
      var name :| name in oldMap;
      SettlePair(s, o, n, ok, prefix, oldAll, newAll, settled, oldMap.Keys + newMap.Keys, stackIn, changesIn,
                 stack, changes, name, limit);
      OneSidedPair(s, prefix, oldAll, newAll, name);
      assert oldMap.Keys + newMap.Keys - {name} == (oldMap - {name}).Keys + newMap.Keys;
      var step :- DeleteOne(s, prefix + [name], oldMap[name]);
      settled := settled + {name};
      oldMap := oldMap - {name};
      stack, changes := stack + step.0, changes + step.1;
    }

    assert oldMap.Keys + newMap.Keys == newMap.Keys;
    while newMap != map[]
      invariant newMap.Keys <= newAll.Keys - oldAll.Keys && (forall x :: x in newMap ==> newMap[x] == newAll[x])
      invariant ok ==> Midway(s, o, n, stack, changes, prefix, newMap.Keys, limit)
      invariant settled + newMap.Keys == names
      invariant Accounted(s, prefix, PairArms(oldAll, newAll, settled), stackIn, changesIn, stack, changes)
      decreases newMap.Keys
    {
      var name :| name in newMap;
      SettlePair(s, o, n, ok, prefix, oldAll, newAll, settled, newMap.Keys, stackIn, changesIn,
                 stack, changes, name, limit);
      OneSidedPair(s, prefix, oldAll, newAll, name);
      assert newMap.Keys - {name} == (newMap - {name}).Keys;
      var step :- AddOne(s, prefix + [name], newMap[name]);
      settled := settled + {name};
      newMap := newMap - {name};
      stack, changes := stack + step.0, changes + step.1;
    }
    assert newMap.Keys == {} && settled == names;
    return Ok((stack, changes));
  }

  /** The `AddAll` arm: everything in a directory only the new side has is added. */
  method AddEntries(s: Store, prefix: Path, entries: seq<Entry>, stackIn: seq<WorkItem>, changesIn: seq<Change>,
                    ghost o: Node, ghost n: Node, ghost ok: bool, ghost limit: nat)
    returns (r: Step)
    requires ok ==>
      && DistinctNames(entries) && MapMirrors(s, n, prefix, ByName(entries))
      && !IsDirNode(NodeAt(Some(o), prefix))
      && Midway(s, o, n, stackIn, changesIn, prefix, Names(entries), limit)
    ensures ok ==> r.Ok? && Midway(s, o, n, r.value.0, r.value.1, prefix, {}, limit)
    ensures if r.Ok? then Accounted(s, prefix, AddArms(entries), stackIn, changesIn, r.value.0, r.value.1)
            else exists a :: a in AddArms(entries) && Outcome(s, prefix, a) == r
  {
    hide Midway, Mirrors, AddOne, ByName, Utf8.Valid, Accounted, AddArms;
    var stack, changes := stackIn, changesIn;
    var i := 0;
    assert entries[0..] == entries;
    NothingListed(s, prefix, stack, changes);
    assert entries[..0] == [];
    while i < |entries|
      invariant 0 <= i <= |entries|
      invariant ok ==> Midway(s, o, n, stack, changes, prefix, Names(entries[i..]), limit)
      invariant Accounted(s, prefix, AddArms(entries[..i]), stackIn, changesIn, stack, changes)
    {
      var entry := entries[i];
      if ok {
        ByNameSpec(entries);
        NodeAtSnoc(Some(o), prefix, entry.name);
        NamesTake(entries, i);
        SettleName(s, o, n, stack, changes, prefix, Names(entries[i..]), entry.name, limit, None, Some(entry));
      }
      EntryArmIn(entries, entry);
      ghost var arm := Arm(entry.name, None, Some(entry));
      assert Outcome(s, prefix, arm) == AddOne(s, prefix + [entry.name], entry);
      var step :- AddOne(s, prefix + [entry.name], entry);
      AccountedOne(s, prefix, AddArms(entries[..i]), stackIn, changesIn, stack, changes, arm);
      EntryArmsMore(entries, i);
      stack, changes := stack + step.0, changes + step.1;
      i := i + 1;
    }
    assert Names(entries[i..]) == {} && entries[..i] == entries;
    return Ok((stack, changes));
  }

  /** The `DeleteAll` arm: everything in a directory only the old side has is deleted. */
  method DeleteEntries(s: Store, prefix: Path, entries: seq<Entry>, stackIn: seq<WorkItem>, changesIn: seq<Change>,
                    ghost o: Node, ghost n: Node, ghost ok: bool, ghost limit: nat)
    returns (r: Step)
    requires ok ==>
      && DistinctNames(entries) && MapMirrors(s, o, prefix, ByName(entries))
      && !IsDirNode(NodeAt(Some(n), prefix))
      && Midway(s, o, n, stackIn, changesIn, prefix, Names(entries), limit)
    ensures ok ==> r.Ok? && Midway(s, o, n, r.value.0, r.value.1, prefix, {}, limit)
    ensures if r.Ok? then Accounted(s, prefix, DeleteArms(entries), stackIn, changesIn, r.value.0, r.value.1)
            else exists a :: a in DeleteArms(entries) && Outcome(s, prefix, a) == r
  {
    hide Midway, Mirrors, DeleteOne, ByName, Utf8.Valid, Accounted, DeleteArms;
    var stack, changes := stackIn, changesIn;
    var i := 0;
    assert entries[0..] == entries;
    NothingListed(s, prefix, stack, changes);
    assert entries[..0] == [];
    while i < |entries|
      invariant 0 <= i <= |entries|
      invariant ok ==> Midway(s, o, n, stack, changes, prefix, Names(entries[i..]), limit)
      invariant Accounted(s, prefix, DeleteArms(entries[..i]), stackIn, changesIn, stack, changes)
    {
      var entry := entries[i];
      if ok {
        ByNameSpec(entries);
        NodeAtSnoc(Some(n), prefix, entry.name);
        NamesTake(entries, i);
        SettleName(s, o, n, stack, changes, prefix, Names(entries[i..]), entry.name, limit, Some(entry), None);
      }
      EntryArmIn(entries, entry);
      ghost var arm := Arm(entry.name, Some(entry), None);
      assert Outcome(s, prefix, arm) == DeleteOne(s, prefix + [entry.name], entry);
      var step :- DeleteOne(s, prefix + [entry.name], entry);
      AccountedOne(s, prefix, DeleteArms(entries[..i]), stackIn, changesIn, stack, changes, arm);
      EntryArmsMore(entries, i);
      stack, changes := stack + step.0, changes + step.1;
      i := i + 1;
    }
    assert Names(entries[i..]) == {} && entries[..i] == entries;
    return Ok((stack, changes));
  }

  /** What holds between two turns of the diff loop. */
  ghost predicate Running(s: Store, o: Node, n: Node, stack: seq<WorkItem>, changes: seq<Change>,
                          loads: seq<(Path, Hash)>, iters: nat) {
    && Unfolds(s, true, o.hash, o) && Unfolds(s, true, n.hash, n)
    && Progress(s, o, n, stack, changes, [], {})
    && iters + TotalWeight(o, n, stack) <= DirCount(o) + DirCount(n)
    && (forall load :: load in loads ==> JustifiedLoad(o, n, load))
  }

  lemma StartRun(s: Store, o: Node, n: Node)
    requires Unfolds(s, true, o.hash, o) && Unfolds(s, true, n.hash, n) && o.hash != n.hash
    ensures Running(s, o, n, [Compare([], o.hash, n.hash)], [], [], 0)
  {
    StartProgress(s, o, n);
    var stack := [Compare([], o.hash, n.hash)];
    assert stack[..0] == [];
    assert TotalWeight(o, n, stack) == Weight(o, n, stack[0]) + TotalWeight(o, n, []);
  }

  /** The item on top: what it will load is there, justified, and enough work is left for it. */
  lemma TopOfStack(s: Store, o: Node, n: Node, stack: seq<WorkItem>, changes: seq<Change>,
                   loads: seq<(Path, Hash)>, iters: nat)
    requires stack != [] && Running(s, o, n, stack, changes, loads, iters)
    ensures var k := |stack| - 1; var w := stack[k];
            && Unfolds(s, true, o.hash, o) && Unfolds(s, true, n.hash, n)
            && (forall load :: load in loads ==> JustifiedLoad(o, n, load))
            && ItemOk(o, n, w)
            && iters < DirCount(o) + DirCount(n)
            && Midway(s, o, n, stack[..k], changes, w.prefix, ItemNames(o, n, w), DirCount(o) + DirCount(n) - iters - 1)
            && (w.Compare? ==> w.oldHash != w.newHash && JustifiedLoad(o, n, (w.prefix, w.oldHash))
                               && JustifiedLoad(o, n, (w.prefix, w.newHash)))
            && (!w.Compare? ==> JustifiedLoad(o, n, (w.prefix, w.hash)))
  {
    PopStep(s, o, n, stack, changes);
    PopWeight(o, n, stack);
    var w := stack[|stack| - 1];
    assert w.prefix[..|w.prefix|] == w.prefix;
    assert !Shared(o, n, w.prefix);
  }

  lemma NextTurn(s: Store, o: Node, n: Node, stack: seq<WorkItem>, changes: seq<Change>, at: Path,
                 loads: seq<(Path, Hash)>, iters: nat)
    requires Unfolds(s, true, o.hash, o) && Unfolds(s, true, n.hash, n)
    requires iters <= DirCount(o) + DirCount(n)
    requires Midway(s, o, n, stack, changes, at, {}, DirCount(o) + DirCount(n) - iters)
    requires forall load :: load in loads ==> JustifiedLoad(o, n, load)
    ensures Running(s, o, n, stack, changes, loads, iters)
  {
    EndProgress(s, o, n, stack, changes, at);
  }

  lemma EndRun(s: Store, o: Node, n: Node, changes: seq<Change>, loads: seq<(Path, Hash)>, iters: nat)
    requires Running(s, o, n, [], changes, loads, iters)
    ensures ListsSeen(s, o, n, changes)
    ensures forall load :: load in loads ==> JustifiedLoad(o, n, load)
  {
    EndProgress(s, o, n, [], changes, []);
  }

  lemma SameRootSeesNothing(s: Store, root: Hash)
    ensures Complete(s, root) ==> ListsSeen(s, TreeOf(s, root), TreeOf(s, root), [])
    ensures SizesTrue(s, [])
  {
    if Complete(s, root) {
      var t := TreeOf(s, root);
      forall p ensures SeenChange(s, t, t, p) == None {
        assert p[..0] == [] && Shared(t, t, []);
      }
    }
  }

  /** What holds between two turns, over any store: the account of the turns so far, and on two
      complete trees the run invariant. */
  ghost predicate Between(s: Store, oldRoot: Hash, newRoot: Hash, turns: seq<WorkItem>, stack: seq<WorkItem>,
                          changes: seq<Change>, loads: seq<(Path, Hash)>) {
    && Walked(s, Compare([], oldRoot, newRoot), turns, stack, changes)
    && (Complete(s, oldRoot) && Complete(s, newRoot) ==>
          Running(s, TreeOf(s, oldRoot), TreeOf(s, newRoot), stack, changes, loads, |turns|))
  }

  lemma Begin(s: Store, oldRoot: Hash, newRoot: Hash)
    requires oldRoot != newRoot
    ensures Between(s, oldRoot, newRoot, [], [Compare([], oldRoot, newRoot)], [], [])
  {
    hide Running, Unfolds, Walked;
    StartWalk(s, Compare([], oldRoot, newRoot));
    if Complete(s, oldRoot) && Complete(s, newRoot) {
      StartRun(s, TreeOf(s, oldRoot), TreeOf(s, newRoot));
    }
  }

  /** A turn that went well. */
  lemma Advance(s: Store, oldRoot: Hash, newRoot: Hash, turns: seq<WorkItem>, stackIn: seq<WorkItem>, changesIn: seq<Change>,
                loadsIn: seq<(Path, Hash)>, stack: seq<WorkItem>, changes: seq<Change>, loads: seq<(Path, Hash)>)
    requires stackIn != [] && Between(s, oldRoot, newRoot, turns, stackIn, changesIn, loadsIn)
    requires var w := stackIn[|stackIn| - 1];
             ItemReadable(s, w) && Accounted(s, w.prefix, ItemArms(s, w), stackIn[..|stackIn| - 1], changesIn, stack, changes)
    requires Complete(s, oldRoot) && Complete(s, newRoot) ==>
               Running(s, TreeOf(s, oldRoot), TreeOf(s, newRoot), stack, changes, loads, |turns| + 1)
    ensures Between(s, oldRoot, newRoot, turns + [stackIn[|stackIn| - 1]], stack, changes, loads)
  {
    hide Running, Unfolds, Walked, Accounted, ItemReadable, ItemArms;
    WalkedOne(s, Compare([], oldRoot, newRoot), turns, stackIn, changesIn, stack, changes);
  }

  /** The work left on two complete trees bounds the turns. */
  lemma Unfinished(s: Store, oldRoot: Hash, newRoot: Hash, turns: seq<WorkItem>, stack: seq<WorkItem>,
                   changes: seq<Change>, loads: seq<(Path, Hash)>)
    requires stack != [] && Between(s, oldRoot, newRoot, turns, stack, changes, loads)
    ensures Complete(s, oldRoot) && Complete(s, newRoot) ==>
              var o, n := TreeOf(s, oldRoot), TreeOf(s, newRoot);
              |turns| < DirCount(o) + DirCount(n) && forall load :: load in loads ==> JustifiedLoad(o, n, load)
  {
    hide Running, Unfolds, Walked, JustifiedLoad, Midway;
    if Complete(s, oldRoot) && Complete(s, newRoot) {
      TopOfStack(s, TreeOf(s, oldRoot), TreeOf(s, newRoot), stack, changes, loads, |turns|);
    }
  }

  lemma FailureIsNotCap(s: Store, w: WorkItem, e: DiffError)
    requires ItemFails(s, w, e)
    ensures e != IterationCap
  {
    hide ItemReadable, ItemArms;
  }

  lemma Finished(s: Store, oldRoot: Hash, newRoot: Hash, turns: seq<WorkItem>, changes: seq<Change>, loads: seq<(Path, Hash)>)
    requires Between(s, oldRoot, newRoot, turns, [], changes, loads)
    ensures SizesTrue(s, changes)
    ensures Complete(s, oldRoot) && Complete(s, newRoot) ==>
              var o, n := TreeOf(s, oldRoot), TreeOf(s, newRoot);
              ListsSeen(s, o, n, changes) && forall load :: load in loads ==> JustifiedLoad(o, n, load)
  {
    hide Running, Unfolds, Walked, JustifiedLoad, ListsSeen, SizesTrue;
    WalkedSizes(s, Compare([], oldRoot, newRoot), turns, [], changes);
    if Complete(s, oldRoot) && Complete(s, newRoot) {
      EndRun(s, TreeOf(s, oldRoot), TreeOf(s, newRoot), changes, loads, |turns|);
    }
  }

  /** One work item: load its directories and go through their names. */
  method DoItem(s: Store, stackIn: seq<WorkItem>, changes: seq<Change>, loadsIn: seq<(Path, Hash)>,
                ghost oldRoot: Hash, ghost newRoot: Hash, ghost turns: seq<WorkItem>)
    returns (step: Step, loads: seq<(Path, Hash)>)
    requires stackIn != [] && Between(s, oldRoot, newRoot, turns, stackIn, changes, loadsIn)
    ensures var w := stackIn[|stackIn| - 1];
            if step.Ok? then Between(s, oldRoot, newRoot, turns + [w], step.value.0, step.value.1, loads)
            else ItemFails(s, w, step.error) && !(Complete(s, oldRoot) && Complete(s, newRoot))
  {
    hide Accounted, Outcome, Running, Walked, Midway, Open, Unfolds, JustifiedLoad, Utf8.Valid, ByName, DecodeRest, DistinctNames;
    var item, stack := stackIn[|stackIn| - 1], stackIn[..|stackIn| - 1];
    loads := loadsIn;
    ghost var ok := Complete(s, oldRoot) && Complete(s, newRoot);
    ghost var o, n := File(oldRoot), File(newRoot);
    ghost var limit := 0;
    if ok {
      o, n := TreeOf(s, oldRoot), TreeOf(s, newRoot);
      TopOfStack(s, o, n, stackIn, changes, loads, |turns|);
      limit := DirCount(o) + DirCount(n) - |turns| - 1;
    }
    match item {
      case Compare(prefix, oldHash, newHash) =>
        if oldHash == newHash {
          NothingAccounted(s, prefix, map[], map[], stack, changes);
          Advance(s, oldRoot, newRoot, turns, stackIn, changes, loadsIn, stack, changes, loads);
          return Ok((stack, changes)), loads;
        }
        if ok {
          LoadedMirrors(s, o, prefix, oldHash);
          LoadedMirrors(s, n, prefix, newHash);
        }
        loads := loads + [(prefix, oldHash)];
        var oldEntries := LoadTree(s, oldHash);
        if oldEntries.Err? { return Err(oldEntries.error), loads; }
        loads := loads + [(prefix, newHash)];
        var newEntries := LoadTree(s, newHash);
        if newEntries.Err? { return Err(newEntries.error), loads; }
        step := CompareDirs(s, prefix, oldEntries.value, newEntries.value, stack, changes, o, n, ok, limit);
      case AddAll(prefix, hash) =>
        if ok { LoadedMirrors(s, n, prefix, hash); }
        loads := loads + [(prefix, hash)];
        var entries := LoadTree(s, hash);
        if entries.Err? { return Err(entries.error), loads; }
        step := AddEntries(s, prefix, entries.value, stack, changes, o, n, ok, limit);
      case DeleteAll(prefix, hash) =>
        if ok { LoadedMirrors(s, o, prefix, hash); }
        loads := loads + [(prefix, hash)];
        var entries := LoadTree(s, hash);
        if entries.Err? { return Err(entries.error), loads; }
        step := DeleteEntries(s, prefix, entries.value, stack, changes, o, n, ok, limit);
    }
    if ok { NextTurn(s, o, n, step.value.0, step.value.1, item.prefix, loads, |turns| + 1); }
    if step.Ok? {
      Advance(s, oldRoot, newRoot, turns, stackIn, changes, loadsIn, step.value.0, step.value.1, loads);
    }
  }

  /** `diff_trees_inner`; the loads are logged.

      On two complete trees the only failure is the iteration cap, which needs more than
      262144 unfolded directories; otherwise the result lists exactly the changes a walk
      pruned at shared nodes can see. Every tree load is at a path where the two sides differ,
      as they do at every path above it, and equal roots load nothing.

      Over any store, also with trees missing, undecodable or listing a name twice: a result
      accounts for every name of every item the walk took, and nothing else; a failure is the
      262145th turn or that of the item on top. */
  method DiffTrees(s: Store, oldRoot: Hash, newRoot: Hash)
    returns (r: Result<seq<Change>, DiffError>, loads: seq<(Path, Hash)>,
             ghost turns: seq<WorkItem>, ghost left: seq<WorkItem>, ghost seen: seq<Change>)
    ensures oldRoot == newRoot ==> r == Ok([]) && loads == []
    ensures oldRoot != newRoot ==> Walked(s, Compare([], oldRoot, newRoot), turns, left, seen)
    ensures |turns| <= 262144
    ensures r.Ok? ==> seen == r.value && left == []
    ensures r.Err? ==> left != []
    ensures r == Err(IterationCap) ==> |turns| == 262144
    ensures r.Err? && r.error != IterationCap ==> ItemFails(s, left[|left| - 1], r.error)
    ensures r.Ok? ==> SizesTrue(s, r.value)
    ensures Complete(s, oldRoot) && Complete(s, newRoot) ==>
              var o, n := TreeOf(s, oldRoot), TreeOf(s, newRoot);
              && (r.Ok? ==> ListsSeen(s, o, n, r.value))
              && (r.Err? ==> r == Err(IterationCap) && DirCount(o) + DirCount(n) > 262144)
              && (forall load :: load in loads ==> JustifiedLoad(o, n, load))
  {
    loads, turns, left, seen := [], [], [], [];
    if oldRoot == newRoot {
      SameRootSeesNothing(s, oldRoot);
      return Ok([]), loads, turns, left, seen;
    }
    hide *;
    var changes: seq<Change> := [];
    var stack := [Compare([], oldRoot, newRoot)];
    var iters := 0;
    Begin(s, oldRoot, newRoot);

    while stack != []
      invariant iters == |turns| <= MAX_DIFF_ITERS
      invariant Between(s, oldRoot, newRoot, turns, stack, changes, loads)
      decreases MAX_DIFF_ITERS - iters
    {
      iters := iters + 1;
      if iters > MAX_DIFF_ITERS {
        Unfinished(s, oldRoot, newRoot, turns, stack, changes, loads);
        return Err(IterationCap), loads, turns, stack, changes;
      }
      var step;
      step, loads := DoItem(s, stack, changes, loads, oldRoot, newRoot, turns);
      if step.Err? {
        FailureIsNotCap(s, stack[|stack| - 1], step.error);
        return Err(step.error), loads, turns, stack, changes;
      }
      turns := turns + [stack[|stack| - 1]];
      stack, changes := step.value.0, step.value.1;
    }
    Finished(s, oldRoot, newRoot, turns, changes, loads);
    return Ok(changes), loads, turns, [], changes;
  }
}

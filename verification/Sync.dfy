/** Push and pull (src/sync.rs): which blobs the reachability walks visit, and that after a
    successful transfer the whole tree is on the other side. */
module Sync {
  import opened Base
  import opened TreeCodec
  import opened Merkle
  import opened Cas
  import Hex
  import PutRef
  import Text
  import Utf8

  const MAX_TREE_NODES: nat := 65536

  /** A stack entry of the walks: a hash, and whether to read its blob as a directory. */
  datatype Item = Item(hash: Hash, isTree: bool)

  datatype SyncError = TooManyNodes | LocalMissing(h: Hash) | RemoteMissing(rh: Hash) | Corrupt | RefMissing | BadTree(e: TreeError)

  // ----- reachability -------------------------------------------------------------------

  function ItemsOf(es: seq<Entry>): seq<Item> {
    seq(|es|, i requires 0 <= i < |es| => Item(es[i].hash, IsDir(es[i])))
  }

  function Children(s: Store, it: Item): seq<Item> {
    if it.isTree && it.hash in s && Decode(s[it.hash]).Ok? then ItemsOf(Decode(s[it.hash]).value) else []
  }

  /** Following entry positions down from an item. */
  function Follow(s: Store, it: Item, steps: seq<nat>): Option<Item>
    decreases |steps|
  {
    if steps == [] then Some(it)
    else if steps[0] < |Children(s, it)| then Follow(s, Children(s, it)[steps[0]], steps[1..])
    else None
  }

  ghost predicate Reaches(s: Store, root: Hash, it: Item) {
    exists steps :: Follow(s, Item(root, true), steps) == Some(it)
  }

  /** No hash is reached both as a file and as a directory with entries: the walks remember
      hashes without the kind they were visited as. */
  ghost predicate KindStable(s: Store, root: Hash) {
    forall h :: Reaches(s, root, Item(h, true)) && Reaches(s, root, Item(h, false)) ==>
                Children(s, Item(h, true)) == []
  }

  lemma {:induction false} FollowAppend(s: Store, it: Item, a: seq<nat>, b: seq<nat>)
    ensures Follow(s, it, a + b) == match Follow(s, it, a) case None => None case Some(x) => Follow(s, x, b)
    decreases |a|
  {
    if a == [] {
      assert a + b == b;
    } else if a[0] < |Children(s, it)| {
      assert (a + b)[1..] == a[1..] + b;
      FollowAppend(s, Children(s, it)[a[0]], a[1..], b);
    }
  }

  lemma ReachesRoot(s: Store, root: Hash)
    ensures Reaches(s, root, Item(root, true))
  {
    assert Follow(s, Item(root, true), []) == Some(Item(root, true));
  }

  lemma ReachesChildren(s: Store, root: Hash, it: Item)
    requires Reaches(s, root, it)
    ensures forall c :: c in Children(s, it) ==> Reaches(s, root, c)
  {
    var steps :| Follow(s, Item(root, true), steps) == Some(it);
    forall c | c in Children(s, it) ensures Reaches(s, root, c) {
      var i :| 0 <= i < |Children(s, it)| && Children(s, it)[i] == c;
      FollowAppend(s, Item(root, true), steps, [i]);
      assert [i][1..] == [];
    }
  }

  // ----- the walk common to push and pull -----------------------------------------------

  /** State of a reachability walk over `s`. `trees` are the hashes read as directories. */
  ghost predicate Swept(s: Store, root: Hash, visited: set<Hash>, trees: set<Hash>, stack: seq<Item>) {
    && (root in visited || Item(root, true) in stack)
    && (forall it :: it in stack ==> Reaches(s, root, it))
    && trees <= visited
    && (forall h :: h in trees ==> Reaches(s, root, Item(h, true)))
    && (forall h, c :: h in trees && c in Children(s, Item(h, true)) ==> c.hash in visited || c in stack)
    && (forall h :: h in visited - trees ==> Reaches(s, root, Item(h, false)))
  }

  lemma SweepStart(s: Store, root: Hash)
    ensures Swept(s, root, {}, {}, [Item(root, true)])
  {
    ReachesRoot(s, root);
  }

  lemma InPopped(stack: seq<Item>, it: Item)
    requires stack != [] && it in stack && it != stack[|stack| - 1]
    ensures it in stack[..|stack| - 1]
  {
  }

  /** An already visited hash is skipped, whatever kind it was visited as. */
  lemma SweepSkip(s: Store, root: Hash, visited: set<Hash>, trees: set<Hash>, stack: seq<Item>)
    requires stack != [] && Swept(s, root, visited, trees, stack) && stack[|stack| - 1].hash in visited
    ensures Swept(s, root, visited, trees, stack[..|stack| - 1])
  {
    hide Children, Reaches;
    var top := stack[|stack| - 1];
    forall it | it in stack && it != top ensures it in stack[..|stack| - 1] {
      InPopped(stack, it);
    }
  }

  /** A new hash is visited; read as a directory, its children are pushed. */
  lemma SweepVisit(s: Store, root: Hash, visited: set<Hash>, trees: set<Hash>, stack: seq<Item>)
    requires stack != [] && Swept(s, root, visited, trees, stack) && stack[|stack| - 1].hash !in visited
    ensures var top := stack[|stack| - 1];
            Swept(s, root, visited + {top.hash}, if top.isTree then trees + {top.hash} else trees,
                  stack[..|stack| - 1] + Children(s, top))
  {
    hide Children, Reaches;
    var top := stack[|stack| - 1];
    ReachesChildren(s, root, top);
    forall it | it in stack && it != top ensures it in stack[..|stack| - 1] {
      InPopped(stack, it);
    }
  }

  /** A finished walk has visited every reachable hash, and no other. */
  lemma SweepDone(s: Store, root: Hash, visited: set<Hash>, trees: set<Hash>)
    requires Swept(s, root, visited, trees, [])
    ensures forall h :: h in visited ==> exists k :: Reaches(s, root, Item(h, k))
    ensures KindStable(s, root) ==> forall it :: Reaches(s, root, it) ==> it.hash in visited
  {
    forall h | h in visited ensures exists k :: Reaches(s, root, Item(h, k)) {
      assert Reaches(s, root, Item(h, h in trees));
    }
    if KindStable(s, root) {
      forall it | Reaches(s, root, it) ensures it.hash in visited {
        var steps :| Follow(s, Item(root, true), steps) == Some(it);
        ReachesRoot(s, root);
        VisitedBelow(s, root, visited, trees, Item(root, true), steps);
      }
    }
  }

  lemma ChildVisited(s: Store, root: Hash, visited: set<Hash>, trees: set<Hash>, it: Item, c: Item)
    requires Swept(s, root, visited, trees, []) && KindStable(s, root)
    requires Reaches(s, root, it) && it.hash in visited && c in Children(s, it)
    ensures c.hash in visited
  {
    assert it.isTree;
    assert Children(s, it) != [];
    hide Reaches, Children;
    assert it == Item(it.hash, true);
    assert it.hash !in trees ==> Reaches(s, root, Item(it.hash, false));
    hide KindStable;
    assert it.hash in trees;
  }

  lemma {:induction false} VisitedBelow(s: Store, root: Hash, visited: set<Hash>, trees: set<Hash>, it: Item, steps: seq<nat>)
    requires Swept(s, root, visited, trees, []) && KindStable(s, root)
    requires Reaches(s, root, it) && it.hash in visited && Follow(s, it, steps).Some?
    ensures Follow(s, it, steps).value.hash in visited
    decreases |steps|
  {
    hide Swept, KindStable, Reaches, Children;
    if steps != [] {
      var c := Children(s, it)[steps[0]];
      ReachesChildren(s, root, it);
      ChildVisited(s, root, visited, trees, it, c);
      VisitedBelow(s, root, visited, trees, c, steps[1..]);
    }
  }

  /** Every hash reached as a directory, and not as a file too, can be read as one. */
  ghost predicate DirsRead(s: Store, root: Hash) {
    forall h :: Reaches(s, root, Item(h, true)) && !Reaches(s, root, Item(h, false)) ==> h in s && Decode(s[h]).Ok?
  }

  /** A finished walk that read all its directories has read all there are. */
  lemma SweepReadDirs(s: Store, root: Hash, visited: set<Hash>, trees: set<Hash>)
    requires Swept(s, root, visited, trees, [])
    requires forall h :: h in trees ==> h in s && Decode(s[h]).Ok?
    ensures KindStable(s, root) ==> DirsRead(s, root)
  {
    SweepDone(s, root, visited, trees);
    hide KindStable, Reaches, Decode;
  }

  /** In a complete tree every reachable blob is stored and every reachable directory reads. */
  lemma EverythingReads(s: Store, root: Hash)
    requires Complete(s, root)
    ensures forall it :: Reaches(s, root, it) ==> it.hash in s && (it.isTree ==> Decode(s[it.hash]).Ok?)
  {
    var n := TreeOf(s, root);
    forall it | Reaches(s, root, it) ensures it.hash in s && (it.isTree ==> Decode(s[it.hash]).Ok?) {
      var steps :| Follow(s, Item(root, true), steps) == Some(it);
      ReachedReads(s, n, root, true, steps);
    }
  }

  lemma {:induction false} ReachedReads(s: Store, n: Node, h: Hash, isTree: bool, steps: seq<nat>)
    requires Unfolds(s, isTree, h, n) && Follow(s, Item(h, isTree), steps).Some?
    ensures var it := Follow(s, Item(h, isTree), steps).value;
            it.hash in s && (it.isTree ==> Decode(s[it.hash]).Ok?)
    decreases |steps|
  {
    if steps != [] {
      var es := Decode(s[h]).value;
      KidOfEntry(s, n, steps[0]);
      ReachedReads(s, n.kids[es[steps[0]].name], es[steps[0]].hash, IsDir(es[steps[0]]), steps[1..]);
    }
  }

  // ----- push ---------------------------------------------------------------------------

  ghost predicate TooManyReachable(s: Store, root: Hash) {
    exists hs: set<Hash> :: |hs| > 65536 && ReachedSet(s, root, hs)
  }

  ghost predicate ReachedSet(s: Store, root: Hash, hs: set<Hash>) {
    forall h :: h in hs ==> exists k :: Reaches(s, root, Item(h, k))
  }

  lemma VisitedIsReached(s: Store, root: Hash, visited: set<Hash>, trees: set<Hash>, stack: seq<Item>)
    requires Swept(s, root, visited, trees, stack)
    ensures ReachedSet(s, root, visited)
    ensures forall it :: it in stack ==> ReachedSet(s, root, visited + {it.hash})
  {
    hide Reaches;
    forall h | h in visited ensures exists k :: Reaches(s, root, Item(h, k)) {
      assert Reaches(s, root, Item(h, h in trees));
    }
    forall it | it in stack ensures ReachedSet(s, root, visited + {it.hash}) {
      assert Reaches(s, root, Item(it.hash, it.isTree));
    }
  }

  /** `collect_all_hashes`: the reachable hashes, each once. It fails only when a directory
      cannot be read or more than 65536 distinct hashes are reachable. */
  method CollectAllHashes(s: Store, root: Hash) returns (r: Result<seq<Hash>, SyncError>)
    ensures r.Ok? ==>
      && NoDup(r.value)
      && (forall h :: h in r.value ==> exists k :: Reaches(s, root, Item(h, k)))
      && (KindStable(s, root) ==> forall it :: Reaches(s, root, it) ==> it.hash in r.value)
      && (KindStable(s, root) ==> DirsRead(s, root))
      && |r.value| <= 65536
    ensures r.Err? && r.error.TooManyNodes? ==> TooManyReachable(s, root)
    ensures r.Err? && !r.error.TooManyNodes? ==>
      exists h :: Reaches(s, root, Item(h, true))
        && (if h !in s then r.error == LocalMissing(h) else Decode(s[h]).Err? && r.error == BadTree(Decode(s[h]).error))
  {
    hide Swept, Reaches, KindStable, DirsRead, Utf8.Valid, DecodeRest;
    var all: seq<Hash> := [];
    var visited: set<Hash> := {};
    ghost var trees: set<Hash> := {};
    var stack := [Item(root, true)];
    var nodeCount := 0;
    SweepStart(s, root);
    while stack != []
      invariant nodeCount == |visited| == |all| <= MAX_TREE_NODES
      invariant forall h :: h in trees ==> h in s && Decode(s[h]).Ok?
      invariant NoDup(all) && (forall h :: h in all <==> h in visited)
      invariant Swept(s, root, visited, trees, stack)
      decreases MAX_TREE_NODES - nodeCount, |stack|
    {
      var top := stack[|stack| - 1];
      ghost var turn := Turn(s, visited, stack);
      TopReached(s, root, visited, trees, stack);
      if top.hash in visited {
        SweepSkip(s, root, visited, trees, stack);
        stack := stack[..|stack| - 1];
        assert (visited, stack) == turn;
        continue;
      }
      SweepVisit(s, root, visited, trees, stack);
      VisitedIsReached(s, root, visited, trees, stack);
      stack := stack[..|stack| - 1];
      nodeCount := nodeCount + 1;
      if nodeCount > MAX_TREE_NODES {
        assert |visited + {top.hash}| > MAX_TREE_NODES && ReachedSet(s, root, visited + {top.hash});
        return Err(TooManyNodes);
      }
      visited := visited + {top.hash};
      all := all + [top.hash];
      if !top.isTree {
        assert stack + Children(s, top) == stack;
        assert (visited, stack) == turn;
        continue;
      }
      trees := trees + {top.hash};
      if top.hash !in s {
        return Err(LocalMissing(top.hash));
      }
      var decoded := DeserializeTree(s[top.hash]);
      if decoded.Err? {
        return Err(BadTree(decoded.error));
      }
      stack := stack + ItemsOf(decoded.value);
      assert (visited, stack) == turn;
    }
    SweepDone(s, root, visited, trees);
    SweepReadDirs(s, root, visited, trees);
    return Ok(all);
  }

  lemma TopReached(s: Store, root: Hash, visited: set<Hash>, trees: set<Hash>, stack: seq<Item>)
    requires stack != [] && Swept(s, root, visited, trees, stack)
    ensures Reaches(s, root, stack[|stack| - 1])
  {
    assert stack[|stack| - 1] in stack;
  }

  /** One turn of the loop of `collect_all_hashes`, on its visited set and its stack. */
  function Turn(s: Store, visited: set<Hash>, stack: seq<Item>): (set<Hash>, seq<Item>)
    requires stack != []
  {
    var top, rest := stack[|stack| - 1], stack[..|stack| - 1];
    if top.hash in visited then (visited, rest) else (visited + {top.hash}, rest + Children(s, top))
  }

  /** A root that lists one object first as a directory `a`, then as a file `b`. */
  function ClashStore(root: Hash, dir: Hash, leaf: Hash): Store {
    map[root := EncodeAll([Entry(MODE_DIR, [97], dir), Entry(MODE_FILE, [98], dir)]),
        dir := EncodeAll([Entry(MODE_FILE, [97], leaf)]), leaf := []]
  }

  lemma ClashChildren(root: Hash, dir: Hash, leaf: Hash)
    requires root != dir && leaf != dir && leaf != root
    ensures var s := ClashStore(root, dir, leaf);
            && Children(s, Item(root, true)) == [Item(dir, true), Item(dir, false)]
            && Children(s, Item(dir, true)) == [Item(leaf, false)]
            && Children(s, Item(dir, false)) == []
  {
    hide DecodeRest, EncodeAll, Utf8.Valid;
    var ea, eb, ec := Entry(MODE_DIR, [97], dir), Entry(MODE_FILE, [98], dir), Entry(MODE_FILE, [97], leaf);
    AsciiTreeDecodes([ea, eb]);
    AsciiTreeDecodes([ec]);
    var s := ClashStore(root, dir, leaf);
    assert Children(s, Item(root, true)) == [Item(dir, true), Item(dir, false)];
    assert Children(s, Item(dir, true)) == [Item(leaf, false)];
  }

  lemma ClashReaches(root: Hash, dir: Hash, leaf: Hash)
    requires root != dir && leaf != dir && leaf != root
    ensures Reaches(ClashStore(root, dir, leaf), root, Item(leaf, false))
  {
    ClashChildren(root, dir, leaf);
    hide Children, Reaches, ClashStore;
    var s := ClashStore(root, dir, leaf);
    ReachesRoot(s, root);
    ReachesChildren(s, root, Item(root, true));
    assert Item(dir, true) in Children(s, Item(root, true));
    ReachesChildren(s, root, Item(dir, true));
    assert Item(leaf, false) in Children(s, Item(dir, true));
  }

  function Turns(s: Store, visited: set<Hash>, stack: seq<Item>, n: nat): (set<Hash>, seq<Item>)
    decreases n
  {
    if n == 0 || stack == [] then (visited, stack)
    else var next := Turn(s, visited, stack); Turns(s, next.0, next.1, n - 1)
  }

  lemma TurnsStep(s: Store, visited: set<Hash>, below: seq<Item>, top: Item, n: nat)
    ensures Turns(s, visited, below + [top], n + 1) ==
            if top.hash in visited then Turns(s, visited, below, n)
            else Turns(s, visited + {top.hash}, below + Children(s, top), n)
  {
    assert (below + [top])[..|below|] == below;
  }

  /** Why `KindStable` is needed: the file is popped first, so the walk of that store ends,
      after three turns, without ever seeing the directory's own entry. */
  lemma FileFirstHidesSubtree(root: Hash, dir: Hash, leaf: Hash)
    requires root != dir && leaf != dir && leaf != root
    ensures var s := ClashStore(root, dir, leaf);
            && Reaches(s, root, Item(leaf, false))
            && Turns(s, {}, [Item(root, true)], 3) == ({root, dir}, [])
  {
    ClashReaches(root, dir, leaf);
    ClashChildren(root, dir, leaf);
    var s := ClashStore(root, dir, leaf);
    var x, y := Item(dir, true), Item(dir, false);
    assert Turns(s, {root, dir}, [], 0) == ({root, dir}, []);
    hide Children, Reaches, ClashStore, Turn, Turns;
    TurnsStep(s, {}, [], Item(root, true), 2);
    assert [] + [Item(root, true)] == [Item(root, true)] && [] + [x, y] == [x] + [y];
    TurnsStep(s, {root}, [x], y, 1);
    assert [x] + [] == [] + [x];
    TurnsStep(s, {root, dir}, [], x, 0);
    assert {} + {root} == {root} && {root} + {dir} == {root, dir};
  }

  datatype RefOutcome = Committed | Conflict(current: Hash, conflictRef: Str)

  /** Where the server keeps the root of a refused push. */
  function ConflictRef(workspace: Str, root: Hash): (name: Str)
    ensures name == workspace + Text.Ascii("@conflict-") + Hex.HashToHex(root)[..8]
    ensures name != workspace
  {
    var name := PutRef.ConflictName(workspace, Hex.HashToHex(root)[..8]);
    PutRef.ConflictNameIs(workspace, Hex.HashToHex(root)[..8]);
    assert |name| > |workspace|;
    name
  }

  /** The server a client talks to: a blob table and workspace refs. */
  class Server {
    var blobs: Store
    var refs: map<Str, Hash>
    const digest: Digest

    constructor (digest: Digest)
      ensures this.digest == digest && blobs == map[] && refs == map[]
    {
      this.digest := digest;
      blobs, refs := map[], map[];
    }

    /** `PUT /v1/blob/:hash`: refused unless the body hashes to its name; an existing blob is
        kept. */
    method PutBlob(h: Hash, body: Bytes) returns (ok: bool)
      modifies this`blobs
      ensures ok <==> digest(body) == h
      ensures blobs == if ok && h !in old(blobs) then old(blobs)[h := body] else old(blobs)
    {
      ok := digest(body) == h;
      if ok && h !in blobs {
        blobs := blobs[h := body];
      }
    }

    /** `PUT /v1/ref/:workspace`, one request at a time. A refused root is kept under a ref of
        its own. */
    method PutRef(workspace: Str, root: Hash, expected: Option<Hash>) returns (r: RefOutcome)
      modifies this`refs
      ensures r.Committed? <==> expected.None? || workspace !in old(refs) || old(refs)[workspace] == expected.value
      ensures r.Committed? ==> refs == old(refs)[workspace := root]
      ensures r.Conflict? ==>
        && refs == old(refs)[ConflictRef(workspace, root) := root]
        && r == Conflict(old(refs)[workspace], ConflictRef(workspace, root))
        && refs[workspace] == old(refs)[workspace]
    {
      if expected.Some? && workspace in refs && refs[workspace] != expected.value {
        var current, name := refs[workspace], ConflictRef(workspace, root);
        refs := refs[name := root];
        return Conflict(current, name);
      }
      refs := refs[workspace := root];
      return Committed;
    }
  }

  datatype PushResult = PushResult(uploaded: nat, outcome: RefOutcome)

  /** Uploads under way: `done` is on the server by now, `missing` is still to come. */
  ghost predicate Uploading(local: Store, before: Store, now: Store, all: seq<Hash>, done: set<Hash>, missing: set<Hash>) {
    && (forall h :: h in now <==> h in before || h in done)
    && (forall h :: h in done ==> h !in before && h in local && now[h] == local[h])
    && (forall h :: h in missing ==> h in all && h !in now)
    && (forall h :: h in all ==> h in now || h in missing)
    && (forall h :: h in before ==> now[h] == before[h])
  }

  lemma UploadStep(local: Store, before: Store, now: Store, all: seq<Hash>, done: set<Hash>, missing: set<Hash>, h: Hash)
    requires Uploading(local, before, now, all, done, missing) && h in missing && h in local
    ensures h !in now && h !in done && Uploading(local, before, now[h := local[h]], all, done + {h}, missing - {h})
  {
  }

  lemma UploadsDone(local: Store, before: Store, now: Store, all: seq<Hash>, done: set<Hash>)
    requires Uploading(local, before, now, all, done, {})
    ensures now.Keys - before.Keys == done && forall h :: h in all ==> h in now
  {
  }

  lemma UploadsKept(local: Store, before: Store, now: Store, all: seq<Hash>, done: set<Hash>, missing: set<Hash>)
    requires Uploading(local, before, now, all, done, missing)
    ensures Extends(before, now) && forall h :: h in now && h !in before ==> h in local && now[h] == local[h]
    ensures forall h :: h in missing ==> h in all
  {
  }

  /** The uploads, in no particular order. */
  method UploadMissing(local: Store, all: seq<Hash>, server: Server) returns (r: Result<nat, SyncError>)
    modifies server`blobs
    ensures Extends(old(server.blobs), server.blobs)
    ensures forall h :: h in server.blobs && h !in old(server.blobs) ==> h in local && server.blobs[h] == local[h]
    ensures r.Ok? ==> forall h :: h in all ==> h in server.blobs
    ensures r.Ok? ==> r.value == |server.blobs.Keys - old(server.blobs.Keys)|
    ensures r.Err? ==>
      exists h :: h in all
        && (if h !in local then r.error == LocalMissing(h) else server.digest(local[h]) != h && r.error == Corrupt)
  {
    var missing := set h | h in all && h !in server.blobs;
    var uploadCount := |missing|;
    ghost var before: Store, done: set<Hash> := server.blobs, {};
    assert Uploading(local, before, server.blobs, all, done, missing);
    hide Uploading, Extends;
    while missing != {}
      invariant Uploading(local, before, server.blobs, all, done, missing)
      invariant |done| + |missing| == uploadCount
      decreases missing
    {
      var h :| h in missing;
      UploadsKept(local, before, server.blobs, all, done, missing);
      if h !in local {
        return Err(LocalMissing(h));
      }
      UploadStep(local, before, server.blobs, all, done, missing, h);
      var ok := server.PutBlob(h, local[h]);
      if !ok {
        return Err(Corrupt);
      }
      missing := missing - {h};
      done := done + {h};
    }
    UploadsKept(local, before, server.blobs, all, done, missing);
    UploadsDone(local, before, server.blobs, all, done);
    return Ok(uploadCount);
  }

  /** `push_cas`. After it returns every blob reachable from the root is on the server, and the
      ref moved only after that. From an intact tree it fails only for its size. */
  method PushCas(local: Store, root: Hash, server: Server, workspace: Str, expected: Option<Hash>)
    returns (r: Result<PushResult, SyncError>)
    modifies server
    ensures Extends(old(server.blobs), server.blobs)
    ensures forall h :: h in server.blobs && h !in old(server.blobs) ==> h in local && server.blobs[h] == local[h]
    ensures r.Ok? && KindStable(local, root) ==> forall it :: Reaches(local, root, it) ==> it.hash in server.blobs
    ensures r.Ok? && KindStable(local, root) ==> DirsRead(local, root)
    ensures r.Ok? && KindStable(local, root) && old(Agree(local, server.blobs)) && Complete(local, root) ==>
              && Complete(server.blobs, root)
              && Flatten(TreeOf(server.blobs, root)) == Flatten(TreeOf(local, root))
    ensures r.Err? ==> server.refs == old(server.refs)
    ensures r.Ok? && r.value.outcome.Committed? ==> server.refs == old(server.refs)[workspace := root]
    ensures r.Ok? ==> (r.value.outcome.Committed? <==>
              expected.None? || workspace !in old(server.refs) || old(server.refs)[workspace] == expected.value)
    ensures r.Ok? && r.value.outcome.Conflict? ==>
              && server.refs == old(server.refs)[ConflictRef(workspace, root) := root]
              && server.refs[workspace] == old(server.refs)[workspace]
              && r.value.outcome == Conflict(old(server.refs)[workspace], ConflictRef(workspace, root))
    ensures r.Ok? ==> r.value.uploaded == |server.blobs.Keys - old(server.blobs.Keys)|
    ensures r.Err? ==> match r.error
                       case TooManyNodes => TooManyReachable(local, root)
                       case LocalMissing(h) => h !in local
                       case BadTree(e) => exists h :: h in local && Decode(local[h]) == Err(e)
                       case Corrupt => !Sound(server.digest, local)
                       case _ => false
    ensures r.Err? && Complete(local, root) && Sound(server.digest, local) ==>
              r.error == TooManyNodes && TooManyReachable(local, root)
  {
    hide Reaches, KindStable, DirsRead, Complete, Unfolds;
    if Complete(local, root) { EverythingReads(local, root); }
    var all :- CollectAllHashes(local, root);
    var uploaded :- UploadMissing(local, all, server);
    if KindStable(local, root) && old(Agree(local, server.blobs)) && Complete(local, root) {
      ghost var tree := TreeOf(local, root);
      ArrivedTreeIsSame(local, server.blobs, root, tree);
      CompleteBy(server.blobs, root, tree);
      UnfoldsUnique(server.blobs, true, root, tree, TreeOf(server.blobs, root));
    }
    var outcome := server.PutRef(workspace, root, expected);
    return Ok(PushResult(uploaded, outcome));
  }

  lemma CompleteBy(s: Store, root: Hash, n: Node)
    requires Unfolds(s, true, root, n)
    ensures Complete(s, root)
  {
  }

  // ----- pull ---------------------------------------------------------------------------

  /** The two stores taken together. */
  function Both(a: Store, b: Store): Store {
    a + b
  }

  /** Blobs were added from the remote store, and nothing else happened. */
  ghost predicate Filled(was: Store, now: Store, remote: Store) {
    Extends(was, now) && forall h :: h in now && h !in was ==> h in remote && now[h] == remote[h]
  }

  lemma FilledTwice(a: Store, b: Store, c: Store, remote: Store)
    requires Filled(a, b, remote) && Filled(b, c, remote)
    ensures Filled(a, c, remote)
  {
  }

  lemma FilledWithin(was: Store, now: Store, remote: Store)
    requires Filled(was, now, remote) && Agree(was, remote)
    ensures Extends(now, Both(was, remote)) && Extends(remote, Both(was, remote))
    ensures forall h :: h in Both(was, remote) ==> h in now || h in remote
    ensures was.Keys <= now.Keys
  {
  }

  /** The second phase: the queued file blobs, in whatever order they arrive. */
  method FetchFiles(remote: Store, local: MemStore, missingFiles: set<Hash>) returns (r: Result<(), SyncError>)
    modifies local
    ensures Filled(old(local.data), local.data, remote)
    ensures old(Sound(local.digest, local.data)) ==> Sound(local.digest, local.data)
    ensures r.Ok? ==> missingFiles <= local.data.Keys
    ensures r.Err? ==>
      exists h :: h in missingFiles
        && (if h !in remote then r.error == RemoteMissing(h) else local.digest(remote[h]) != h && r.error == Corrupt)
  {
    var todo := missingFiles;
    while todo != {}
      invariant todo <= missingFiles
      invariant Filled(old(local.data), local.data, remote)
      invariant old(Sound(local.digest, local.data)) ==> Sound(local.digest, local.data)
      invariant forall h :: h in missingFiles ==> h in local.data || h in todo
      decreases todo
    {
      var h :| h in todo;
      todo := todo - {h};
      if h !in remote {
        return Err(RemoteMissing(h));
      }
      if local.digest(remote[h]) != h {
        return Err(Corrupt);
      }
      var _ := local.Put(remote[h]);
    }
    return Ok(());
  }

  /** What one stack item of the first phase comes to. */
  datatype Visit = Queued | Have(children: seq<Item>)

  /** Why a directory cannot be used: absent, not what its name says, or not a tree object. */
  predicate Unusable(digest: Digest, s: Store, h: Hash) {
    h !in s || digest(s[h]) != h || Decode(s[h]).Err?
  }

  lemma UnusableInBoth(digest: Digest, local: Store, remote: Store, whole: Store, h: Hash)
    requires Extends(local, whole) && Extends(remote, whole) && forall k :: k in whole ==> k in local || k in remote
    requires if h in local then Decode(local[h]).Err? else Unusable(digest, remote, h)
    ensures Unusable(digest, whole, h)
  {
  }

  lemma NoChildren(s: Store, it: Item)
    requires !it.isTree
    ensures Children(s, it) == []
  {
  }

  lemma SameChildren(s: Store, t: Store, it: Item)
    requires it.hash in s && Extends(s, t)
    ensures Children(s, it) == Children(t, it)
  {
  }

  lemma SameBytes(s: Store, t: Store, h: Hash)
    requires h in s && Extends(s, t)
    ensures h in t && t[h] == s[h]
  {
  }

  /** What a download's error says of the remote store. */
  ghost predicate Truthful(digest: Digest, remote: Store, e: SyncError) {
    match e
    case RemoteMissing(h) => h !in remote
    case Corrupt => !Sound(digest, remote)
    case TooManyNodes => true
    case BadTree(_) => true
    case _ => false
  }

  /** One item: a directory is fetched unless it is local, a file only queued. */
  method VisitItem(remote: Store, local: MemStore, top: Item) returns (r: Result<Visit, SyncError>)
    modifies local
    ensures Filled(old(local.data), local.data, remote)
    ensures old(Sound(local.digest, local.data)) ==> Sound(local.digest, local.data)
    ensures r.Err? ==> Truthful(local.digest, remote, r.error)
    ensures r.Ok? && r.value.Queued? ==> !top.isTree
    ensures r.Ok? && r.value.Have? ==> top.hash in local.data && r.value.children == Children(local.data, top)
    ensures r.Ok? && top.isTree ==> top.hash in local.data && Decode(local.data[top.hash]).Ok?
    ensures r.Err? ==>
              && r.error != TooManyNodes && top.isTree
              && (if top.hash in old(local.data) then Decode(old(local.data)[top.hash]).Err?
                  else Unusable(local.digest, remote, top.hash))
              && (r.error.RemoteMissing? || r.error.Corrupt? ==> top.hash !in old(local.data))
              && (r.error.RemoteMissing? ==> r.error.rh == top.hash)
              && (r.error.RemoteMissing? <==> top.hash !in old(local.data) && top.hash !in remote)
              && (r.error.Corrupt? ==> local.digest(remote[top.hash]) != top.hash)
              && (r.error.RemoteMissing? || r.error.Corrupt? || r.error.BadTree?)
  {
    hide Utf8.Valid, DecodeRest;
    var data: Bytes;
    var here := local.Has(top.hash);
    if here {
      var got := local.Get(top.hash);
      data := got.value;
    } else if top.isTree {
      if top.hash !in remote {
        return Err(RemoteMissing(top.hash));
      }
      var fetched := remote[top.hash];
      if local.digest(fetched) != top.hash {
        return Err(Corrupt);
      }
      var _ := local.Put(fetched);
      data := fetched;
    } else {
      return Ok(Queued);
    }
    if !top.isTree {
      return Ok(Have([]));
    }
    var decoded := DeserializeTree(data);
    if decoded.Err? {
      return Err(BadTree(decoded.error));
    }
    return Ok(Have(ItemsOf(decoded.value)));
  }

  /** The first phase: directories are fetched as the walk meets them. */
  method WalkTree(remote: Store, local: MemStore, root: Hash)
    returns (r: Result<set<Hash>, SyncError>, ghost visited: set<Hash>, ghost trees: set<Hash>)
    modifies local
    ensures Filled(old(local.data), local.data, remote)
    ensures old(Sound(local.digest, local.data)) ==> Sound(local.digest, local.data)
    ensures r.Err? ==> Truthful(local.digest, remote, r.error)
    ensures var whole := Both(old(local.data), remote);
            old(Agree(local.data, remote)) ==>
              && (r.Ok? ==> Swept(whole, root, visited, trees, []) && (forall h :: h in r.value ==> h in visited)
                            && (forall h :: h in visited ==> h in local.data || h in r.value))
              && (r.Ok? ==> forall h :: h in trees ==> h in whole && Decode(whole[h]).Ok?)
              && (r.Err? && r.error == TooManyNodes ==> TooManyReachable(whole, root))
              && (r.Err? && r.error != TooManyNodes ==>
                    exists h :: Reaches(whole, root, Item(h, true)) && Unusable(local.digest, whole, h))
  {
    hide Swept, Reaches, Unusable, Decode, Children, ReachedSet, Filled, Extends, Both, Agree, Sound;
    ghost var start, whole := local.data, Both(local.data, remote);
    ghost var ok := Agree(local.data, remote);
    var seen: set<Hash> := {};
    visited, trees := {}, {};
    var stack := [Item(root, true)];
    var nodeCount := 0;
    var missingFiles: set<Hash> := {};
    SweepStart(whole, root);
    FilledStart(start, remote);
    while stack != []
      invariant nodeCount == |seen| <= MAX_TREE_NODES && visited == seen
      invariant Filled(start, local.data, remote)
      invariant old(Sound(local.digest, local.data)) ==> Sound(local.digest, local.data)
      invariant forall h :: h in missingFiles ==> h in seen
      invariant forall h :: h in seen ==> h in local.data || h in missingFiles
      invariant ok ==> Swept(whole, root, visited, trees, stack)
      invariant ok ==> forall h :: h in trees ==> h in whole && Decode(whole[h]).Ok?
      decreases MAX_TREE_NODES - nodeCount, |stack|
    {
      var top := stack[|stack| - 1];
      if top.hash in seen {
        if ok { SweepSkip(whole, root, visited, trees, stack); }
        stack := stack[..|stack| - 1];
        continue;
      }
      if ok {
        TopReached(whole, root, visited, trees, stack);
        VisitedIsReached(whole, root, visited, trees, stack);
        SweepVisit(whole, root, visited, trees, stack);
      }
      stack := stack[..|stack| - 1];
      nodeCount := nodeCount + 1;
      if nodeCount > MAX_TREE_NODES {
        assert |seen + {top.hash}| > MAX_TREE_NODES && (ok ==> ReachedSet(whole, root, seen + {top.hash}));
        return Err(TooManyNodes), visited, trees;
      }
      seen := seen + {top.hash};
      visited := seen;
      if top.isTree { trees := trees + {top.hash}; }
      ghost var was := local.data;
      var visit := VisitItem(remote, local, top);
      FilledTwice(start, was, local.data, remote);
      FilledKeys(was, local.data, remote);
      if visit.Err? {
        hide Truthful;
        if ok {
          FilledWithin(start, was, remote);
          UnusableInBoth(local.digest, was, remote, whole, top.hash);
        }
        return Err(visit.error), visited, trees;
      }
      if ok && top.isTree {
        FilledWithin(start, local.data, remote);
        SameBytes(local.data, whole, top.hash);
      }
      match visit.value {
        case Queued =>
          missingFiles := missingFiles + {top.hash};
          NoChildren(whole, top);
          assert stack + [] == stack;
        case Have(children) =>
          if ok {
            FilledWithin(start, local.data, remote);
            SameChildren(local.data, whole, top);
          }
          stack := stack + children;
      }
    }
    return Ok(missingFiles), visited, trees;
  }

  lemma FilledStart(s: Store, remote: Store)
    ensures Filled(s, s, remote)
  {
  }

  lemma FilledKeys(was: Store, now: Store, remote: Store)
    requires Filled(was, now, remote)
    ensures forall h :: h in was ==> h in now
  {
  }

  /** `fetch_tree_blobs`: directories first, files afterwards and in any order. Whatever part was
      local before, afterwards all of it is, with the server's bytes; for an intact tree it fails
      only for its size. */
  method FetchTreeBlobs(remote: Store, local: MemStore, root: Hash) returns (r: Result<(), SyncError>)
    modifies local
    ensures Filled(old(local.data), local.data, remote)
    ensures old(Sound(local.digest, local.data)) ==> Sound(local.digest, local.data)
    ensures r.Err? ==> Truthful(local.digest, remote, r.error)
    ensures var all := Both(old(local.data), remote);
            r.Ok? && old(Agree(local.data, remote)) && KindStable(all, root) ==>
              DirsRead(all, root) && forall it :: Reaches(all, root, it) ==> it.hash in local.data
    ensures r.Err? && old(Agree(local.data, remote)) && Complete(remote, root) && Sound(local.digest, remote) ==>
              r.error == TooManyNodes && TooManyReachable(remote, root)
  {
    hide Swept, Reaches, KindStable, DirsRead, Complete, Decode;
    ghost var whole := Both(local.data, remote);
    ghost var ok := Agree(local.data, remote);
    if ok && Complete(remote, root) {
      SameReach(remote, whole, root);
      EverythingReads(remote, root);
    }
    ghost var visited, trees;
    var missing;
    missing, visited, trees := WalkTree(remote, local, root);
    if missing.Err? {
      return Err(missing.error);
    }
    if ok {
      SweepDone(whole, root, visited, trees);
      SweepReadDirs(whole, root, visited, trees);
    }
    var done := FetchFiles(remote, local, missing.value);
    return done;
  }

  // ----- what a transfer means ----------------------------------------------------------

  /** A complete tree in `s` is complete, and the same, in any store that agrees with `s` and
      has everything reachable. */
  lemma {:induction false} TreeTransfers(s: Store, t: Store, isTree: bool, h: Hash, n: Node)
    requires Unfolds(s, isTree, h, n) && Agree(s, t)
    requires forall steps :: Follow(s, Item(h, isTree), steps).Some? ==> Follow(s, Item(h, isTree), steps).value.hash in t
    ensures Unfolds(t, isTree, h, n)
    decreases n
  {
    var it := Item(h, isTree);
    assert Follow(s, it, []) == Some(it);
    if n.Dir? {
      var es := Decode(s[h]).value;
      forall i | 0 <= i < |es| ensures es[i].name in n.kids && Unfolds(t, IsDir(es[i]), es[i].hash, n.kids[es[i].name]) {
        KidOfEntry(s, n, i);
        forall steps | Follow(s, Item(es[i].hash, IsDir(es[i])), steps).Some?
          ensures Follow(s, Item(es[i].hash, IsDir(es[i])), steps).value.hash in t
        {
          assert ([i] + steps)[1..] == steps;
          assert Follow(s, it, [i] + steps) == Follow(s, Children(s, it)[i], steps);
        }
        TreeTransfers(s, t, IsDir(es[i]), es[i].hash, n.kids[es[i].name]);
      }
    }
  }

  /** Everything reachable arriving means the tree arrives. */
  lemma ArrivedTreeIsSame(s: Store, t: Store, root: Hash, n: Node)
    requires Unfolds(s, true, root, n) && Agree(s, t)
    requires forall it :: Reaches(s, root, it) ==> it.hash in t
    ensures Unfolds(t, true, root, n)
  {
    forall steps | Follow(s, Item(root, true), steps).Some?
      ensures Follow(s, Item(root, true), steps).value.hash in t
    {
      assert Reaches(s, root, Follow(s, Item(root, true), steps).value);
    }
    TreeTransfers(s, t, true, root, n);
  }

  /** In a complete store nothing more is reached by adding blobs that agree with it. */
  lemma {:induction false} MoreBlobsReachNoMore(s: Store, t: Store, n: Node, h: Hash, isTree: bool, steps: seq<nat>)
    requires Unfolds(s, isTree, h, n) && Extends(s, t)
    ensures Follow(t, Item(h, isTree), steps) == Follow(s, Item(h, isTree), steps)
    decreases |steps|
  {
    var it := Item(h, isTree);
    assert Children(t, it) == Children(s, it);
    if steps != [] && steps[0] < |Children(s, it)| {
      var es := Decode(s[h]).value;
      KidOfEntry(s, n, steps[0]);
      MoreBlobsReachNoMore(s, t, n.kids[es[steps[0]].name], es[steps[0]].hash, IsDir(es[steps[0]]), steps[1..]);
    }
  }

  lemma SameReach(s: Store, t: Store, root: Hash)
    requires Complete(s, root) && Extends(s, t)
    ensures forall it :: Reaches(t, root, it) <==> Reaches(s, root, it)
    ensures KindStable(t, root) <==> KindStable(s, root)
  {
    var n := TreeOf(s, root);
    forall it ensures Reaches(t, root, it) <==> Reaches(s, root, it) {
      forall steps ensures Follow(t, Item(root, true), steps) == Follow(s, Item(root, true), steps) {
        MoreBlobsReachNoMore(s, t, n, root, true, steps);
      }
    }
    forall h | Reaches(s, root, Item(h, true)) ensures Children(t, Item(h, true)) == Children(s, Item(h, true)) {
      var steps :| Follow(s, Item(root, true), steps) == Some(Item(h, true));
      MoreBlobsReachNoMore(s, t, n, root, true, steps + [0]);
      ReachedReads(s, n, root, true, steps);
    }
  }

  /** `pull`: the root of the workspace, and afterwards the whole of its tree is local: it
      flattens to the same files here as on the server. */
  method Pull(server: Server, workspace: Str, local: MemStore) returns (r: Result<Hash, SyncError>)
    modifies local
    ensures Extends(old(local.data), local.data)
    ensures r.Ok? ==> workspace in server.refs && r.value == server.refs[workspace]
    ensures r.Ok? && old(Agree(local.data, server.blobs))
            && Complete(server.blobs, r.value) && KindStable(server.blobs, r.value) ==>
              && Complete(local.data, r.value)
              && Flatten(TreeOf(local.data, r.value)) == Flatten(TreeOf(server.blobs, r.value))
    ensures workspace !in server.refs <==> r == Err(RefMissing)
    ensures workspace in server.refs && r.Err? ==> Truthful(local.digest, server.blobs, r.error)
    ensures workspace in server.refs && r.Err? ==>
              var root := server.refs[workspace];
              old(Agree(local.data, server.blobs)) && Complete(server.blobs, root) && Sound(local.digest, server.blobs) ==>
                r.error == TooManyNodes && TooManyReachable(server.blobs, root)
  {
    if workspace !in server.refs {
      return Err(RefMissing);
    }
    var root := server.refs[workspace];
    ghost var all := Both(local.data, server.blobs);
    ghost var ok := Agree(local.data, server.blobs) && Complete(server.blobs, root) && KindStable(server.blobs, root);
    var n := FetchTreeBlobs(server.blobs, local, root);
    if n.Err? {
      return Err(n.error);
    }
    if ok {
      SameReach(server.blobs, all, root);
      ghost var tree := TreeOf(server.blobs, root);
      ArrivedTreeIsSame(server.blobs, local.data, root, tree);
      UnfoldsUnique(local.data, true, root, tree, TreeOf(local.data, root));
    }
    return Ok(root);
  }
}

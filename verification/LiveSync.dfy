/** Live reconciliation of a client mount (src/live_sync.rs): notification-driven and polling
    reconciles of one client, first as the objects of the source, then as atomic steps
    (check, load, partition, fetch, commit) of any number of calls interleaved with each other
    and with a changing server. */
module LiveSync {
  import opened Base

  type SnapshotId = Str
  type BlobHash = Str
  type Entries = map<Str, BlobHash>

  datatype ReconcileError = SnapshotNotFound(id: SnapshotId) | BlobFetchFailed(hash: BlobHash)

  datatype ReconcileResult = ReconcileResult(id: SnapshotId, fetched: seq<BlobHash>, skipped: seq<BlobHash>)

  /** The mount and the blobs the client has; no id means nothing was mounted yet. */
  datatype Client = Client(id: Option<SnapshotId>, entries: Entries, cache: set<BlobHash>)

  const FRESH_CLIENT := Client(None, map[], {})

  /** Keys in some order: a hash map is listed in an order nobody controls. */
  ghost predicate IsListing(m: Entries, keys: seq<Str>) {
    NoDup(keys) && Elems(keys) == m.Keys
  }

  function ValuesAlong(m: Entries, keys: seq<Str>): seq<BlobHash>
    requires forall k :: k in keys ==> k in m
  {
    seq(|keys|, i requires 0 <= i < |keys| => assert keys[i] in keys; m[keys[i]])
  }

  /** The hashes of `hs` that are, or are not, in the cache. */
  function Having(hs: seq<BlobHash>, cache: set<BlobHash>, cached: bool): seq<BlobHash> {
    if hs == [] then []
    else (if (hs[0] in cache) == cached then [hs[0]] else []) + Having(hs[1..], cache, cached)
  }

  /** The commit: the mount is swapped whole and the fetched blobs are remembered. */
  function Committed(c: Client, id: SnapshotId, entries: Entries, fetched: seq<BlobHash>): Client {
    Client(Some(id), entries, c.cache + Elems(fetched))
  }

  lemma {:induction false} HavingParts(hs: seq<BlobHash>, cache: set<BlobHash>)
    ensures forall h :: h in Having(hs, cache, true) <==> h in hs && h in cache
    ensures forall h :: h in Having(hs, cache, false) <==> h in hs && h !in cache
    ensures multiset(hs) == multiset(Having(hs, cache, true)) + multiset(Having(hs, cache, false))
  {
    if hs != [] {
      HavingParts(hs[1..], cache);
      assert hs == [hs[0]] + hs[1..];
    }
  }

  lemma ValuesAlongAll(m: Entries, keys: seq<Str>)
    requires IsListing(m, keys)
    ensures forall k :: k in keys ==> k in m
    ensures Elems(ValuesAlong(m, keys)) == m.Values
  {
    assert forall k :: k in keys ==> k in Elems(keys);
    var vs := ValuesAlong(m, keys);
    forall v | v in m.Values ensures v in vs {
      var k :| k in m && m[k] == v;
      assert k in Elems(keys);
      var i :| 0 <= i < |keys| && keys[i] == k;
      assert vs[i] == v;
    }
  }

  lemma PartsOfValues(values: set<BlobHash>, hs: seq<BlobHash>, cache: set<BlobHash>)
    requires Elems(hs) == values
    ensures Elems(Having(hs, cache, false)) == values - cache
    ensures Elems(Having(hs, cache, true)) == values * cache
  {
    HavingParts(hs, cache);
    assert forall h :: h in hs <==> h in Elems(hs);
  }

  // ----- the objects --------------------------------------------------------------------

  class MemServerApi {
    var refs: map<Str, SnapshotId>
    var snapshots: map<SnapshotId, Entries>
    var blobs: map<BlobHash, Bytes>

    constructor ()
      ensures refs == map[] && snapshots == map[] && blobs == map[]
    {
      refs, snapshots, blobs := map[], map[], map[];
    }

    method SeedSnapshot(id: SnapshotId, entries: Entries)
      requires id != []
      modifies this`snapshots
      ensures snapshots == old(snapshots)[id := entries]
    {
      snapshots := snapshots[id := entries];
    }

    method SeedBlob(hash: BlobHash, data: Bytes)
      requires hash != []
      modifies this`blobs
      ensures blobs == old(blobs)[hash := data]
    {
      blobs := blobs[hash := data];
    }

    /** The ref moves; the event that is then published says to which snapshot. */
    method AdvanceRef(workspace: Str, id: SnapshotId) returns (event: (Str, SnapshotId))
      requires workspace != [] && id != []
      modifies this`refs
      ensures refs == old(refs)[workspace := id] && event == (workspace, id)
    {
      refs := refs[workspace := id];
      event := (workspace, id);
    }
  }

  /** Every blob of the snapshot is at hand or can be fetched. */
  predicate Obtainable(entries: Entries, cache: set<BlobHash>, blobs: map<BlobHash, Bytes>) {
    forall h :: h in entries.Values ==> h in cache || h in blobs
  }

  class ClientReconciler {
    const server: MemServerApi
    var snapshotId: Option<SnapshotId>
    var entries: Entries
    var blobCache: set<BlobHash>

    constructor (server: MemServerApi)
      ensures this.server == server && Abs() == FRESH_CLIENT
    {
      this.server := server;
      snapshotId, entries, blobCache := None, map[], {};
    }

    function Abs(): Client
      reads this
    {
      Client(snapshotId, entries, blobCache)
    }

    method ListValues(m: Entries) returns (vs: seq<BlobHash>, ghost keys: seq<Str>)
      ensures IsListing(m, keys) && vs == ValuesAlong(m, keys)
    {
      vs, keys := [], [];
      var rest := m.Keys;
      while rest != {}
        invariant rest <= m.Keys && NoDup(keys) && Elems(keys) == m.Keys - rest
        invariant forall k :: k in keys ==> k in Elems(keys)
        invariant forall k :: k in keys ==> k in m
        invariant vs == ValuesAlong(m, keys)
        decreases rest
      {
        var k :| k in rest;
        assert k !in Elems(keys);
        ghost var keys0 := keys;
        rest := rest - {k};
        vs := vs + [m[k]];
        keys := keys + [k];
        assert forall x :: x in keys <==> x in keys0 || x == k;
        assert Elems(keys) == Elems(keys0) + {k};
      }
    }

    /** Mounts the snapshot whole, or changes nothing; fetches exactly the blobs that were not
        in the cache. */
    method Reconcile(id: SnapshotId) returns (r: Result<ReconcileResult, ReconcileError>)
      requires id != []
      modifies this
      ensures r.Ok? <==> old(snapshotId) == Some(id)
                         || (id in server.snapshots && Obtainable(server.snapshots[id], old(blobCache), server.blobs))
      ensures r.Err? ==> Abs() == old(Abs())
      ensures r.Err? && id !in server.snapshots ==> r.error == SnapshotNotFound(id)
      ensures r.Err? && id in server.snapshots ==>
                r.error.BlobFetchFailed? && r.error.hash in server.snapshots[id].Values
                && r.error.hash !in old(blobCache) && r.error.hash !in server.blobs
      ensures r.Ok? && old(snapshotId) == Some(id) ==> Abs() == old(Abs()) && r.value.fetched == []
      ensures r.Ok? && old(snapshotId) != Some(id) ==>
                && snapshotId == Some(id) && entries == server.snapshots[id]
                && blobCache == old(blobCache) + entries.Values
                && Elems(r.value.fetched) == entries.Values - old(blobCache)
                && Elems(r.value.skipped) == entries.Values * old(blobCache)
      ensures r.Ok? ==> r.value.id == id && Elems(r.value.fetched) + Elems(r.value.skipped) == entries.Values
    {
      ghost var keys;
      if snapshotId == Some(id) {
        var skipped;
        skipped, keys := ListValues(entries);
        ValuesAlongAll(entries, keys);
        return Ok(ReconcileResult(id, [], skipped));
      }
      if id !in server.snapshots {
        return Err(SnapshotNotFound(id));
      }
      var snapshot := server.snapshots[id];
      var hashes;
      hashes, keys := ListValues(snapshot);
      ValuesAlongAll(snapshot, keys);
      var missing, cached := Partition(hashes);
      PartsOfValues(snapshot.Values, hashes, blobCache);
      var fetched := FetchAll(missing);
      if fetched.Err? {
        assert fetched.error.hash in Elems(missing);
        return Err(fetched.error);
      }
      assert Obtainable(snapshot, blobCache, server.blobs) by {
        assert forall h :: h in snapshot.Values && h !in blobCache ==> h in Elems(missing);
      }
      blobCache := blobCache + Elems(fetched.value);
      snapshotId := Some(id);
      entries := snapshot;
      return Ok(ReconcileResult(id, fetched.value, cached));
    }

    method Partition(hashes: seq<BlobHash>) returns (missing: seq<BlobHash>, cached: seq<BlobHash>)
      ensures missing == Having(hashes, blobCache, false) && cached == Having(hashes, blobCache, true)
    {
      missing, cached := [], [];
      var i := 0;
      assert hashes[0..] == hashes;
      while i < |hashes|
        invariant 0 <= i <= |hashes|
        invariant missing + Having(hashes[i..], blobCache, false) == Having(hashes, blobCache, false)
        invariant cached + Having(hashes[i..], blobCache, true) == Having(hashes, blobCache, true)
      {
        assert hashes[i..][1..] == hashes[i + 1..];
        if hashes[i] in blobCache {
          cached := cached + [hashes[i]];
        } else {
          missing := missing + [hashes[i]];
        }
        i := i + 1;
      }
    }

    method FetchAll(missing: seq<BlobHash>) returns (r: Result<seq<BlobHash>, ReconcileError>)
      ensures r.Ok? <==> forall h :: h in missing ==> h in server.blobs
      ensures r.Ok? ==> r.value == missing
      ensures r.Err? ==> r.error.BlobFetchFailed? && r.error.hash in missing && r.error.hash !in server.blobs
    {
      var fetched: seq<BlobHash> := [];
      var i := 0;
      while i < |missing|
        invariant 0 <= i <= |missing| && fetched == missing[..i]
        invariant forall j :: 0 <= j < i ==> missing[j] in server.blobs
      {
        if missing[i] !in server.blobs {
          return Err(BlobFetchFailed(missing[i]));
        }
        fetched := fetched + [missing[i]];
        i := i + 1;
      }
      return Ok(fetched);
    }
  }

  class PollingFallback {
    const reconciler: ClientReconciler
    const server: MemServerApi
    const workspace: Str
    var lastSeen: Option<SnapshotId>

    constructor (reconciler: ClientReconciler, workspace: Str)
      requires workspace != []
      ensures this.reconciler == reconciler && server == reconciler.server && this.workspace == workspace && lastSeen == None
    {
      this.reconciler, this.server, this.workspace := reconciler, reconciler.server, workspace;
      lastSeen := None;
    }

    /** One poll. After it the mount is the ref's snapshot exactly if it already was, or the ref
        is not the one seen last and its snapshot can be had: a mount that has moved off the
        snapshot seen last is not moved back until the ref changes. */
    method Tick() returns (r: Option<ReconcileResult>)
      requires server == reconciler.server
      requires workspace in server.refs ==> server.refs[workspace] != []
      modifies this`lastSeen, reconciler
      ensures workspace !in server.refs ==> r == None && reconciler.Abs() == old(reconciler.Abs())
      ensures workspace in server.refs ==>
                var head := server.refs[workspace];
                && (reconciler.snapshotId == Some(head) <==>
                    old(reconciler.snapshotId) == Some(head)
                    || (old(lastSeen) != Some(head) && head in server.snapshots
                        && Obtainable(server.snapshots[head], old(reconciler.blobCache), server.blobs)))
                && (reconciler.snapshotId != Some(head) ==> reconciler.Abs() == old(reconciler.Abs()) && r == None)
                && (r.Some? ==> r.value.id == head && lastSeen == Some(head) && old(lastSeen) != Some(head))
                && (r.None? ==> lastSeen == old(lastSeen) && reconciler.Abs() == old(reconciler.Abs()))
    {
      if workspace !in server.refs {
        return None;
      }
      var current := server.refs[workspace];
      if lastSeen == Some(current) {
        return None;
      }
      var result := reconciler.Reconcile(current);
      match result {
        case Ok(value) =>
          lastSeen := Some(current);
          return Some(value);
        case Err(_) =>
          return None;
      }
    }
  }

  // ----- interleaved calls --------------------------------------------------------------

  /** Where a call stands between two atomic steps. */
  datatype Stage =
    | Polled(pid: SnapshotId)
    | Asked(aid: SnapshotId)
    | Loading(lid: SnapshotId)
    | Loaded(id: SnapshotId, entries: Entries)
    | Fetching(fid: SnapshotId, fentries: Entries, todo: seq<BlobHash>, fetched: seq<BlobHash>, cached: seq<BlobHash>)
    | Returned(result: ReconcileResult)
    | Noted(noted: ReconcileResult)
    | Failed(error: ReconcileError)
    | Unchanged
  {
    predicate Succeeded() {
      Returned? || Noted?
    }

    function Result(): ReconcileResult
      requires Succeeded()
    {
      if Returned? then result else noted
    }
  }

  /** A live call has no poller. */
  datatype Call = Call(stage: Stage, poller: Option<nat>)

  /** A commit: which call made it and what it mounted. */
  datatype Mounted = Mounted(call: nat, id: SnapshotId, entries: Entries)

  /** The server (one workspace's ref, the snapshots, the blobs), the client, its calls, each
      poller's snapshot seen last; and, for the proof, every snapshot the server ever held and
      the commits in order. */
  datatype System = System(head: Option<SnapshotId>, snapshots: map<SnapshotId, Entries>, blobs: set<BlobHash>,
                           client: Client, calls: map<nat, Call>, seen: map<nat, SnapshotId>,
                           held: set<(SnapshotId, Entries)>, commits: seq<Mounted>)

  const BEGIN := System(None, map[], {}, FRESH_CLIENT, map[], map[], {}, [])

  datatype Action =
    | SeedSnapshot(sid: SnapshotId, entries: Entries)
    | SeedBlob(hash: BlobHash)
    | AdvanceRef(hid: SnapshotId)
    | Ask(c: nat, id: SnapshotId)
    | Poll(c: nat, poller: nat)
    | Compare(c: nat)
    | Check(c: nat, keys: seq<Str>)
    | Load(c: nat)
    | Partition(c: nat, keys: seq<Str>)
    | Fetch(c: nat)
    | Commit(c: nat)
    | Note(c: nat)

  function At(s: System, c: nat, stage: Stage): System
    requires c in s.calls
  {
    s.(calls := s.calls[c := s.calls[c].(stage := stage)])
  }

  // Steps that are not enabled do nothing.

  function StepCompare(s: System, c: nat): System
    requires c in s.calls
  {
    var call := s.calls[c];
    if !call.stage.Polled? || call.poller.None? then s
    else if call.poller.value in s.seen && s.seen[call.poller.value] == call.stage.pid then At(s, c, Unchanged)
    else At(s, c, Asked(call.stage.pid))
  }

  ghost function StepCheck(s: System, c: nat, keys: seq<Str>): System
    requires c in s.calls
  {
    var g := s.calls[c].stage;
    if !g.Asked? then s
    else if s.client.id != Some(g.aid) then At(s, c, Loading(g.aid))
    else if !IsListing(s.client.entries, keys) then s
    else
      ValuesAlongAll(s.client.entries, keys);
      At(s, c, Returned(ReconcileResult(g.aid, [], ValuesAlong(s.client.entries, keys))))
  }

  function StepLoad(s: System, c: nat): System
    requires c in s.calls
  {
    var g := s.calls[c].stage;
    if !g.Loading? then s
    else At(s, c, if g.lid in s.snapshots then Loaded(g.lid, s.snapshots[g.lid]) else Failed(SnapshotNotFound(g.lid)))
  }

  ghost function StepPartition(s: System, c: nat, keys: seq<Str>): System
    requires c in s.calls
  {
    var g := s.calls[c].stage;
    if !g.Loaded? || !IsListing(g.entries, keys) then s
    else
      ValuesAlongAll(g.entries, keys);
      var hs := ValuesAlong(g.entries, keys);
      At(s, c, Fetching(g.id, g.entries, Having(hs, s.client.cache, false), [], Having(hs, s.client.cache, true)))
  }

  function StepFetch(s: System, c: nat): System
    requires c in s.calls
  {
    var g := s.calls[c].stage;
    if !g.Fetching? || g.todo == [] then s
    else if g.todo[0] !in s.blobs then At(s, c, Failed(BlobFetchFailed(g.todo[0])))
    else At(s, c, g.(todo := g.todo[1..], fetched := g.fetched + [g.todo[0]]))
  }

  function StepCommit(s: System, c: nat): System
    requires c in s.calls
  {
    var g := s.calls[c].stage;
    if !g.Fetching? || g.todo != [] then s
    else
      At(s, c, Returned(ReconcileResult(g.fid, g.fetched, g.cached)))
        .(client := Committed(s.client, g.fid, g.fentries, g.fetched),
          commits := s.commits + [Mounted(c, g.fid, g.fentries)])
  }

  /** A poller notes what it has reconciled. */
  function StepNote(s: System, c: nat): System
    requires c in s.calls
  {
    var call := s.calls[c];
    if !call.stage.Returned? || call.poller.None? then s
    else At(s, c, Noted(call.stage.result)).(seen := s.seen[call.poller.value := call.stage.result.id])
  }

  ghost function Step(s: System, a: Action): System {
    match a
    case SeedSnapshot(id, entries) => s.(snapshots := s.snapshots[id := entries], held := s.held + {(id, entries)})
    case SeedBlob(hash) => s.(blobs := s.blobs + {hash})
    case AdvanceRef(id) => s.(head := Some(id))
    case Ask(c, id) => if c in s.calls then s else s.(calls := s.calls[c := Call(Asked(id), None)])
    case Poll(c, w) =>
      if c in s.calls || s.head.None? then s else s.(calls := s.calls[c := Call(Polled(s.head.value), Some(w))])
    case Compare(c) => if c in s.calls then StepCompare(s, c) else s
    case Check(c, keys) => if c in s.calls then StepCheck(s, c, keys) else s
    case Load(c) => if c in s.calls then StepLoad(s, c) else s
    case Partition(c, keys) => if c in s.calls then StepPartition(s, c, keys) else s
    case Fetch(c) => if c in s.calls then StepFetch(s, c) else s
    case Commit(c) => if c in s.calls then StepCommit(s, c) else s
    case Note(c) => if c in s.calls then StepNote(s, c) else s
  }

  ghost function Run(s: System, actions: seq<Action>): System
    decreases |actions|
  {
    if actions == [] then s else Run(Step(s, actions[0]), actions[1..])
  }

  // ----- one call on its own ------------------------------------------------------------

  function Fetches(s: System, c: nat, n: nat): (t: System)
    requires c in s.calls
    ensures c in t.calls
    decreases n
  {
    if n == 0 then s else Fetches(StepFetch(s, c), c, n - 1)
  }

  /** Fetching blob after blob ends with all of them, or at the first that is not there. */
  lemma {:induction false} FetchesAll(s: System, c: nat)
    requires c in s.calls && s.calls[c].stage.Fetching?
    ensures var g := s.calls[c].stage;
            var end := Fetches(s, c, |g.todo|);
            if forall h :: h in g.todo ==> h in s.blobs then end == At(s, c, g.(todo := [], fetched := g.fetched + g.todo))
            else exists h :: h in g.todo && h !in s.blobs && end == At(s, c, Failed(BlobFetchFailed(h)))
    decreases |s.calls[c].stage.todo|
  {
    var g := s.calls[c].stage;
    hide Fetches;
    FetchesStep(s, c, |g.todo|);
    if g.todo == [] {
      assert g.fetched + g.todo == g.fetched;
      AtAgain(s, c, g);
    } else {
      assert g.todo == [g.todo[0]] + g.todo[1..];
      var next := StepFetch(s, c);
      if g.todo[0] in s.blobs {
        var rest := g.(todo := g.todo[1..], fetched := g.fetched + [g.todo[0]]);
        assert next == At(s, c, rest);
        FetchesAll(next, c);
        assert g.fetched + [g.todo[0]] + g.todo[1..] == g.fetched + g.todo;
        hide At, StepFetch;
        if forall h :: h in g.todo ==> h in s.blobs {
          AtTwice(s, c, rest, g.(todo := [], fetched := g.fetched + g.todo));
        } else {
          var h :| h in rest.todo && h !in s.blobs && Fetches(next, c, |rest.todo|) == At(next, c, Failed(BlobFetchFailed(h)));
          AtTwice(s, c, rest, Failed(BlobFetchFailed(h)));
        }
      } else {
        FailedStays(next, c, |g.todo| - 1);
      }
    }
  }

  lemma FetchesStep(s: System, c: nat, n: nat)
    requires c in s.calls
    ensures Fetches(s, c, n) == if n == 0 then s else Fetches(StepFetch(s, c), c, n - 1)
  {
  }

  lemma AtAgain(s: System, c: nat, g: Stage)
    requires c in s.calls && s.calls[c].stage == g
    ensures At(s, c, g) == s
  {
    assert s.calls[c := s.calls[c].(stage := g)] == s.calls;
  }

  lemma AtTwice(s: System, c: nat, g: Stage, h: Stage)
    requires c in s.calls
    ensures c in At(s, c, g).calls && At(At(s, c, g), c, h) == At(s, c, h)
    ensures At(s, c, g).blobs == s.blobs
  {
    assert s.calls[c := s.calls[c].(stage := g)][c := s.calls[c].(stage := h)] == s.calls[c := s.calls[c].(stage := h)];
  }

  lemma {:induction false} FailedStays(s: System, c: nat, n: nat)
    requires c in s.calls && s.calls[c].stage.Failed?
    ensures Fetches(s, c, n) == s
    decreases n
  {
    if n > 0 { FailedStays(s, c, n - 1); }
  }

  /** The steps of one call with nothing in between, for a snapshot that is not mounted. */
  ghost function Alone(s: System, c: nat, keys: seq<Str>, n: nat): (t: System)
    requires c in s.calls
    ensures c in t.calls
  {
    StepCommit(Fetches(StepPartition(StepLoad(StepCheck(s, c, keys), c), c, keys), c, n), c)
  }

  /** A call nobody gets in the way of does what the method does: it mounts the whole snapshot if
      every blob of it is cached or can be fetched, and otherwise fails and changes nothing. */
  lemma AloneReconciles(s: System, c: nat, id: SnapshotId, keys: seq<Str>)
    requires c in s.calls && s.calls[c].stage == Asked(id) && s.client.id != Some(id)
    requires id in s.snapshots ==> IsListing(s.snapshots[id], keys)
    ensures id !in s.snapshots ==> Alone(s, c, keys, 0) == At(s, c, Failed(SnapshotNotFound(id)))
    ensures id in s.snapshots ==>
              var entries := s.snapshots[id];
              exists n ::
                var end := Alone(s, c, keys, n);
                if forall h :: h in entries.Values ==> h in s.client.cache || h in s.blobs then
                  && end.client == Client(Some(id), entries, s.client.cache + entries.Values)
                  && end.commits == s.commits + [Mounted(c, id, entries)]
                  && end.calls[c].stage.Returned?
                  && end.calls[c].stage.result.id == id
                  && Elems(end.calls[c].stage.result.fetched) == entries.Values - s.client.cache
                  && Elems(end.calls[c].stage.result.skipped) == entries.Values * s.client.cache
                else
                  && end.client == s.client && end.commits == s.commits
                  && end.calls[c].stage.Failed? && end.calls[c].stage.error.BlobFetchFailed?
                  && var h := end.calls[c].stage.error.hash; h in entries.Values && h !in s.client.cache && h !in s.blobs
  {
    if id in s.snapshots {
      var entries := s.snapshots[id];
      ValuesAlongAll(entries, keys);
      var hs := ValuesAlong(entries, keys);
      PartsOfValues(entries.Values, hs, s.client.cache);
      var todo, cached := Having(hs, s.client.cache, false), Having(hs, s.client.cache, true);
      var ready := At(s, c, Fetching(id, entries, todo, [], cached));
      assert StepPartition(StepLoad(StepCheck(s, c, keys), c), c, keys) == ready;
      FetchesAll(ready, c);
      hide Fetches, Having, ValuesAlong;
      assert forall h :: h in todo <==> h in Elems(todo);
      assert [] + todo == todo;
      assert Alone(s, c, keys, |todo|) == StepCommit(Fetches(ready, c, |todo|), c);
      assert s.client.cache + Elems(todo) == s.client.cache + entries.Values;
    }
  }

  /** The other steps: a call for the mounted snapshot returns at once, a poll asks for the head
      unless its poller has noted it, and a poller notes what it has reconciled. */
  lemma OtherSteps(s: System, c: nat, keys: seq<Str>)
    requires c in s.calls
    ensures var call, g := s.calls[c], s.calls[c].stage;
            && (g.Asked? && s.client.id == Some(g.aid) && IsListing(s.client.entries, keys) ==>
                  var after := StepCheck(s, c, keys);
                  && after.client == s.client && after.commits == s.commits && after.calls[c].stage.Returned?
                  && after.calls[c].stage.result.id == g.aid && after.calls[c].stage.result.fetched == []
                  && Elems(after.calls[c].stage.result.skipped) == s.client.entries.Values)
            && (g.Polled? && call.poller.Some? ==>
                  StepCompare(s, c) == At(s, c, if call.poller.value in s.seen && s.seen[call.poller.value] == g.pid
                                                then Unchanged else Asked(g.pid)))
            && (g.Returned? && call.poller.Some? ==>
                  var after := StepNote(s, c);
                  && after.client == s.client && after.calls[c].stage == Noted(g.result)
                  && after.seen == s.seen[call.poller.value := g.result.id])
  {
    var g := s.calls[c].stage;
    if g.Asked? && s.client.id == Some(g.aid) && IsListing(s.client.entries, keys) {
      ValuesAlongAll(s.client.entries, keys);
    }
  }

  /** What is true of a call's own data at every stage. */
  ghost predicate CallOk(s: System, g: Stage) {
    match g
    case Loaded(id, entries) => (id, entries) in s.held
    case Fetching(id, entries, todo, fetched, cached) =>
      && (id, entries) in s.held
      && entries.Values == Elems(todo) + Elems(fetched) + Elems(cached)
      && Elems(cached) <= s.client.cache && Elems(fetched) <= s.blobs
    case Returned(r) => WasMounted(s, r)
    case Noted(r) => WasMounted(s, r)
    case _ => true
  }

  /** The reported snapshot was mounted, and the reported hashes are just its blobs. */
  ghost predicate WasMounted(s: System, r: ReconcileResult) {
    exists i :: 0 <= i < |s.commits| && s.commits[i].id == r.id
                && s.commits[i].entries.Values == Elems(r.fetched) + Elems(r.skipped)
  }

  /** The mount is nothing, or one snapshot the server held, whole and with all its blobs. */
  ghost predicate MountOk(s: System) {
    && (s.client.id.None? ==> s.client.entries == map[])
    && (s.client.id.Some? ==> (s.client.id.value, s.client.entries) in s.held)
    && s.client.entries.Values <= s.client.cache <= s.blobs
  }

  /** The mount is what the last commit put there; commits come from calls that returned, one
      from each at most. */
  ghost predicate CommitsOk(s: System) {
    && (if s.commits == [] then s.client.id == None && s.client.entries == map[]
        else
          var last := s.commits[|s.commits| - 1];
          s.client.id == Some(last.id) && s.client.entries == last.entries)
    && (forall i :: 0 <= i < |s.commits| ==>
          var m := s.commits[i];
          m.call in s.calls && s.calls[m.call].stage.Succeeded() && s.calls[m.call].stage.Result().id == m.id)
    && (forall i, j :: 0 <= i < j < |s.commits| ==> s.commits[i].call != s.commits[j].call)
  }

  ghost predicate Inv(s: System) {
    && (forall id :: id in s.snapshots ==> (id, s.snapshots[id]) in s.held)
    && MountOk(s)
    && CommitsOk(s)
    && (forall c :: c in s.calls ==> CallOk(s, s.calls[c].stage))
    && (forall w :: w in s.seen ==> exists i :: 0 <= i < |s.commits| && s.commits[i].id == s.seen[w])
  }

  /** Nothing a call relies on is ever taken away. */
  ghost predicate Grows(s: System, t: System) {
    && s.held <= t.held && s.client.cache <= t.client.cache && s.blobs <= t.blobs
    && s.commits <= t.commits
  }

  lemma CallOkGrows(s: System, t: System, g: Stage)
    requires Grows(s, t) && CallOk(s, g)
    ensures CallOk(t, g)
  {
    if g.Succeeded() {
      var r := g.Result();
      var i :| 0 <= i < |s.commits| && s.commits[i].id == r.id
               && s.commits[i].entries.Values == Elems(r.fetched) + Elems(r.skipped);
      assert t.commits[i] == s.commits[i];
    }
  }

  lemma NewCallKeepsCommitsOk(s: System, c: nat, call: Call)
    requires CommitsOk(s) && c !in s.calls
    ensures CommitsOk(s.(calls := s.calls[c := call]))
  {
    var t := s.(calls := s.calls[c := call]);
    forall i | 0 <= i < |t.commits|
      ensures t.commits[i].call in t.calls && t.calls[t.commits[i].call].stage.Succeeded()
              && t.calls[t.commits[i].call].stage.Result().id == t.commits[i].id
    {
      assert s.commits[i].call in s.calls;
    }
  }

  lemma NewCallKeepsInv(s: System, c: nat, call: Call)
    requires Inv(s) && c !in s.calls && (call.stage.Asked? || call.stage.Polled?)
    ensures Inv(s.(calls := s.calls[c := call]))
  {
    var t := s.(calls := s.calls[c := call]);
    NewCallKeepsCommitsOk(s, c, call);
    NewCallOk(t, call.stage);
    hide CallOk, CommitsOk;
    forall d | d in t.calls ensures CallOk(t, t.calls[d].stage) {
      if d != c {
        CallOkGrows(s, t, s.calls[d].stage);
      }
    }
  }

  lemma ServerGrowsKeepsInv(s: System, t: System)
    requires Inv(s) && s.held <= t.held && s.blobs <= t.blobs
    requires t == s.(head := t.head, snapshots := t.snapshots, blobs := t.blobs, held := t.held)
    requires forall id :: id in t.snapshots ==> (id, t.snapshots[id]) in t.held
    ensures Inv(t)
  {
    assert MountOk(t);
    assert CommitsOk(t);
    hide CallOk, MountOk, CommitsOk;
    forall c | c in t.calls ensures CallOk(t, t.calls[c].stage) {
      CallOkGrows(s, t, s.calls[c].stage);
    }
  }

  lemma ServerStepKeepsInv(s: System, a: Action)
    requires Inv(s) && (a.SeedSnapshot? || a.SeedBlob? || a.AdvanceRef?)
    ensures Inv(Step(s, a))
  {
    assert forall id :: id in s.snapshots ==> (id, s.snapshots[id]) in s.held;
    hide Inv;
    ServerGrowsKeepsInv(s, Step(s, a));
  }

  lemma NewCallOk(s: System, g: Stage)
    requires !g.Loaded? && !g.Fetching? && !g.Succeeded()
    ensures CallOk(s, g)
  {
  }

  lemma StageChangeKeepsInv(s: System, c: nat, g: Stage)
    requires Inv(s) && c in s.calls && CallOk(s, g)
    requires s.calls[c].stage.Succeeded() ==> g.Succeeded() && g.Result() == s.calls[c].stage.Result()
    ensures Inv(At(s, c, g))
  {
    hide CallOk;
    var t := At(s, c, g);
    forall d | d in t.calls ensures CallOk(t, t.calls[d].stage) {
      CallOkGrows(s, t, t.calls[d].stage);
    }
  }

  lemma InvCallOk(s: System, c: nat)
    requires Inv(s) && c in s.calls
    ensures CallOk(s, s.calls[c].stage)
  {
  }

  lemma CommitKeepsCommitsOk(s: System, c: nat)
    requires CommitsOk(s) && c in s.calls && s.calls[c].stage.Fetching? && s.calls[c].stage.todo == []
    ensures CommitsOk(StepCommit(s, c))
  {
    var t, n := StepCommit(s, c), |s.commits|;
    assert forall i :: 0 <= i < n ==> t.commits[i] == s.commits[i];
    assert forall i :: 0 <= i < n ==> s.commits[i].call != c;
    assert t.commits[n].call == c && t.calls[c].stage.Succeeded();
  }

  lemma CommitKeepsInv(s: System, c: nat)
    requires Inv(s) && c in s.calls && s.calls[c].stage.Fetching? && s.calls[c].stage.todo == []
    ensures Inv(StepCommit(s, c))
  {
    var g, t := s.calls[c].stage, StepCommit(s, c);
    InvCallOk(s, c);
    CommitKeepsCommitsOk(s, c);
    assert Elems(g.todo) == {};
    assert MountOk(t);
    assert t.commits[|s.commits|] == Mounted(c, g.fid, g.fentries);
    assert WasMounted(t, t.calls[c].stage.result);
    hide CallOk, CommitsOk, MountOk;
    forall d | d in t.calls ensures CallOk(t, t.calls[d].stage) {
      if d != c {
        CallOkGrows(s, t, s.calls[d].stage);
      } else {
        ReturnedOk(t, t.calls[c].stage);
      }
    }
    forall w | w in t.seen ensures exists i :: 0 <= i < |t.commits| && t.commits[i].id == t.seen[w] {
      var i :| 0 <= i < |s.commits| && s.commits[i].id == s.seen[w];
      assert t.commits[i] == s.commits[i];
    }
  }

  lemma ReturnedOk(s: System, g: Stage)
    requires g.Succeeded() && WasMounted(s, g.Result())
    ensures CallOk(s, g)
  {
  }

  lemma SeenKeepsInv(s: System, w: nat, id: SnapshotId)
    requires Inv(s) && exists i :: 0 <= i < |s.commits| && s.commits[i].id == id
    ensures Inv(s.(seen := s.seen[w := id]))
  {
    hide CallOk;
    var t := s.(seen := s.seen[w := id]);
    forall c | c in t.calls ensures CallOk(t, t.calls[c].stage) {
      CallOkGrows(s, t, t.calls[c].stage);
    }
  }

  lemma NoteKeepsInv(s: System, c: nat)
    requires Inv(s) && c in s.calls && s.calls[c].stage.Returned? && s.calls[c].poller.Some?
    ensures Inv(StepNote(s, c))
  {
    hide Inv;
    var r := s.calls[c].stage.result;
    InvCallOk(s, c);
    ReturnedOk(s, Noted(r));
    StageChangeKeepsInv(s, c, Noted(r));
    hide CallOk;
    SeenKeepsInv(At(s, c, Noted(r)), s.calls[c].poller.value, r.id);
  }

  lemma PartitionKeepsInv(s: System, c: nat, keys: seq<Str>)
    requires Inv(s) && c in s.calls && s.calls[c].stage.Loaded? && IsListing(s.calls[c].stage.entries, keys)
    ensures Inv(StepPartition(s, c, keys))
  {
    var g := s.calls[c].stage;
    InvCallOk(s, c);
    ValuesAlongAll(g.entries, keys);
    PartsOfValues(g.entries.Values, ValuesAlong(g.entries, keys), s.client.cache);
    hide Inv, IsListing, ValuesAlong, Having;
    var g' := StepPartition(s, c, keys).calls[c].stage;
    assert Elems(g'.fetched) == {};
    StageChangeKeepsInv(s, c, g');
  }

  lemma FetchKeepsInv(s: System, c: nat)
    requires Inv(s) && c in s.calls && s.calls[c].stage.Fetching? && s.calls[c].stage.todo != []
    ensures Inv(StepFetch(s, c))
  {
    hide Inv;
    var g := s.calls[c].stage;
    InvCallOk(s, c);
    assert g.todo[0] in g.todo;
    assert forall h :: h in g.todo <==> h == g.todo[0] || h in g.todo[1..];
    StageChangeKeepsInv(s, c, StepFetch(s, c).calls[c].stage);
  }

  lemma CheckKeepsInv(s: System, c: nat, keys: seq<Str>)
    requires Inv(s) && c in s.calls
    ensures Inv(StepCheck(s, c, keys))
  {
    var g := s.calls[c].stage;
    if g.Asked? && s.client.id == Some(g.aid) && IsListing(s.client.entries, keys) {
      ValuesAlongAll(s.client.entries, keys);
      var r := ReconcileResult(g.aid, [], ValuesAlong(s.client.entries, keys));
      assert Elems(r.fetched) == {};
      assert s.commits[|s.commits| - 1].entries.Values == Elems(r.fetched) + Elems(r.skipped);
      assert WasMounted(s, r);
      hide Inv, ValuesAlong, IsListing;
      StageChangeKeepsInv(s, c, Returned(r));
    } else if g.Asked? && s.client.id != Some(g.aid) {
      hide Inv;
      StageChangeKeepsInv(s, c, Loading(g.aid));
    }
  }

  lemma LoadKeepsInv(s: System, c: nat)
    requires Inv(s) && c in s.calls && s.calls[c].stage.Loading?
    ensures Inv(StepLoad(s, c))
  {
    var id := s.calls[c].stage.lid;
    assert id in s.snapshots ==> (id, s.snapshots[id]) in s.held;
    hide Inv;
    StageChangeKeepsInv(s, c, StepLoad(s, c).calls[c].stage);
  }

  lemma CompareKeepsInv(s: System, c: nat)
    requires Inv(s) && c in s.calls && s.calls[c].stage.Polled? && s.calls[c].poller.Some?
    ensures Inv(StepCompare(s, c))
  {
    hide Inv;
    StageChangeKeepsInv(s, c, StepCompare(s, c).calls[c].stage);
  }

  lemma StepKeepsInv(s: System, a: Action)
    requires Inv(s)
    ensures Inv(Step(s, a))
  {
    hide Inv, IsListing, ValuesAlong, Having;
    if a.SeedSnapshot? || a.SeedBlob? || a.AdvanceRef? {
      ServerStepKeepsInv(s, a);
    } else if a.c !in s.calls {
      if a.Ask? {
        NewCallKeepsInv(s, a.c, Call(Asked(a.id), None));
      } else if a.Poll? && s.head.Some? {
        NewCallKeepsInv(s, a.c, Call(Polled(s.head.value), Some(a.poller)));
      }
    } else {
      var c, g := a.c, s.calls[a.c].stage;
      match a
      case Compare(_) => if g.Polled? && s.calls[c].poller.Some? { CompareKeepsInv(s, c); }
      case Check(_, keys) => CheckKeepsInv(s, c, keys);
      case Load(_) => if g.Loading? { LoadKeepsInv(s, c); }
      case Partition(_, keys) => if g.Loaded? && IsListing(g.entries, keys) { PartitionKeepsInv(s, c, keys); }
      case Fetch(_) => if g.Fetching? && g.todo != [] { FetchKeepsInv(s, c); }
      case Commit(_) => if g.Fetching? && g.todo == [] { CommitKeepsInv(s, c); }
      case Note(_) => if g.Returned? && s.calls[c].poller.Some? { NoteKeepsInv(s, c); }
      case _ =>
    }
  }

  /** In every run, however calls and server changes interleave: the mount is empty or one
      complete snapshot the server held, all its blobs are in the cache and the cache holds
      nothing the server did not have; the mount is what the last commit put there, every
      commit belongs to a call that succeeded (so a failed call changed nothing), and each call
      commits at most once. */
  lemma RunKeepsInv(actions: seq<Action>)
    ensures Inv(Run(BEGIN, actions))
  {
    RunFromKeepsInv(BEGIN, actions);
  }

  lemma {:induction false} RunFromKeepsInv(s: System, actions: seq<Action>)
    requires Inv(s)
    ensures Inv(Run(s, actions))
    decreases |actions|
  {
    if actions != [] {
      hide Inv, Step;
      StepKeepsInv(s, actions[0]);
      RunFromKeepsInv(Step(s, actions[0]), actions[1..]);
    }
  }

  /** What a client can rely on, read off the invariant: a call that failed is behind no commit,
      and a call's report names just the blobs of a snapshot that was mounted. */
  lemma FailedCallsChangedNothing(actions: seq<Action>, c: nat)
    requires var s := Run(BEGIN, actions); c in s.calls
    ensures var s := Run(BEGIN, actions);
            && (s.calls[c].stage.Failed? ==> forall i :: 0 <= i < |s.commits| ==> s.commits[i].call != c)
            && (s.calls[c].stage.Succeeded() ==> WasMounted(s, s.calls[c].stage.Result()))
  {
    RunKeepsInv(actions);
    var s := Run(BEGIN, actions);
    assert CallOk(s, s.calls[c].stage);
  }

  // ----- a late call --------------------------------------------------------------------

  lemma {:induction false} RunThen(s: System, actions: seq<Action>, a: Action)
    ensures Run(s, actions + [a]) == Step(Run(s, actions), a)
    decreases |actions|
  {
    if actions == [] {
      assert actions + [a] == [a] && [a][1..] == [];
    } else {
      RunThen(Step(s, actions[0]), actions[1..], a);
      assert (actions + [a])[1..] == actions[1..] + [a];
    }
  }

  /** One more action of a run from the beginning. */
  lemma Extend(actions: seq<Action>, s: System, a: Action) returns (more: seq<Action>, t: System)
    requires s == Run(BEGIN, actions)
    ensures t == Run(BEGIN, more) && t == Step(s, a)
  {
    more, t := actions + [a], Step(s, a);
    RunThen(BEGIN, actions, a);
  }

  const ONE: SnapshotId := [49]
  const TWO: SnapshotId := [50]
  const NOTHING: Entries := map[]

  /** Loads an empty snapshot that is not mounted, up to the commit. */
  lemma LoadEmpty(actions: seq<Action>, s: System, c: nat, id: SnapshotId) returns (more: seq<Action>, t: System)
    requires s == Run(BEGIN, actions) && c in s.calls && s.calls[c].stage == Asked(id)
    requires s.client.id != Some(id) && id in s.snapshots && s.snapshots[id] == NOTHING
    ensures t == Run(BEGIN, more) && t == At(s, c, Fetching(id, NOTHING, [], [], []))
  {
    var a, u := Extend(actions, s, Check(c, []));
    assert u == At(s, c, Loading(id));
    a, u := Extend(a, u, Load(c));
    assert u == At(s, c, Loaded(id, NOTHING));
    assert IsListing(NOTHING, []) && ValuesAlong(NOTHING, []) == [];
    more, t := Extend(a, u, Partition(c, []));
    assert t == At(s, c, Fetching(id, NOTHING, [], [], []));
  }

  /** Two snapshots on the server; a live call and a poll of a poller that saw nothing yet. */
  lemma TwoCallsAsked() returns (actions: seq<Action>, s: System)
    ensures s == Run(BEGIN, actions)
    ensures s.head == Some(TWO) && s.client == FRESH_CLIENT && s.seen == map[]
    ensures s.snapshots == map[ONE := NOTHING, TWO := NOTHING]
    ensures s.calls == map[0 := Call(Asked(ONE), None), 1 := Call(Asked(TWO), Some(7))]
  {
    actions, s := Extend([], BEGIN, SeedSnapshot(ONE, NOTHING));
    actions, s := Extend(actions, s, SeedSnapshot(TWO, NOTHING));
    actions, s := Extend(actions, s, Ask(0, ONE));
    actions, s := Extend(actions, s, AdvanceRef(TWO));
    actions, s := Extend(actions, s, Poll(1, 7));
    actions, s := Extend(actions, s, Compare(1));
  }

  /** The poll's call commits and is noted, then the live call commits. */
  lemma LateCommit(s: System)
    requires s.client == FRESH_CLIENT && s.seen == map[]
    requires s.calls == map[0 := Call(Fetching(ONE, NOTHING, [], [], []), None),
                            1 := Call(Fetching(TWO, NOTHING, [], [], []), Some(7))]
    ensures var t := Step(Step(Step(s, Commit(1)), Note(1)), Commit(0));
            && t.head == s.head && t.client.id == Some(ONE) && t.seen == map[7 := TWO]
            && t.calls.Keys == {0, 1} && t.calls[0].stage.Returned? && t.calls[0].poller.None? && t.calls[1].stage.Noted?
  {
    var s1 := Step(s, Commit(1));
    assert s1.calls[1] == Call(Returned(ReconcileResult(TWO, [], [])), Some(7)) && s1.calls[0] == s.calls[0];
    var s2 := Step(s1, Note(1));
    assert s2.calls[0] == s.calls[0] && s2.seen == map[7 := TWO];
    assert s2.calls.Keys == {0, 1};
  }

  /** Poller `w` has seen the ref as it is, and no call is under way but polls of its own. */
  ghost predicate CaughtUp(s: System, w: nat) {
    && s.head.Some? && w in s.seen && s.seen[w] == s.head.value
    && forall c :: c in s.calls ==>
         var call := s.calls[c];
         || call.stage.Noted? || call.stage.Unchanged? || call.stage.Failed?
         || (call.stage.Returned? && call.poller.None?)
         || (call.stage == Polled(s.head.value) && call.poller == Some(w))
  }

  /** Anything but a move of the ref, a new event, or a poll by someone else. */
  predicate OnlyPolls(a: Action, w: nat) {
    !a.AdvanceRef? && !a.Ask? && (a.Poll? ==> a.poller == w)
  }

  lemma PollStepSeesNothing(s: System, a: Action, w: nat)
    requires CaughtUp(s, w) && OnlyPolls(a, w)
    ensures CaughtUp(Step(s, a), w) && Step(s, a).client == s.client
  {
    hide IsListing, ValuesAlong, Having;
  }

  /** However often the poller polls, and whatever else the server learns meanwhile, the mount
      stays where it is. */
  lemma {:induction false} PollingSeesNothing(s: System, actions: seq<Action>, w: nat)
    requires CaughtUp(s, w) && forall a :: a in actions ==> OnlyPolls(a, w)
    ensures CaughtUp(Run(s, actions), w) && Run(s, actions).client == s.client
    decreases |actions|
  {
    if actions != [] {
      hide Step, CaughtUp;
      PollStepSeesNothing(s, actions[0], w);
      PollingSeesNothing(Step(s, actions[0]), actions[1..], w);
    }
  }

  /** The mount can be left behind the ref for as long as the ref stays: a call for an older
      snapshot that commits last takes the mount back, and the poller, which has seen the
      current ref, finds nothing to do however often it polls. */
  lemma LateCallGoesUnnoticed() returns (actions: seq<Action>, s: System)
    ensures s == Run(BEGIN, actions)
    ensures s.head == Some(TWO) && s.client.id == Some(ONE) && ONE != TWO
    ensures s.seen == map[7 := TWO] && forall c :: c in s.calls ==> s.calls[c].stage.Succeeded()
    ensures forall polls :: (forall a :: a in polls ==> OnlyPolls(a, 7)) ==>
              Run(s, polls).head == Some(TWO) && Run(s, polls).client == s.client
  {
    hide Run, Step, OnlyPolls;
    actions, s := TwoCallsAsked();
    actions, s := LoadEmpty(actions, s, 0, ONE);
    actions, s := LoadEmpty(actions, s, 1, TWO);
    LateCommit(s);
    actions, s := Extend(actions, s, Commit(1));
    actions, s := Extend(actions, s, Note(1));
    actions, s := Extend(actions, s, Commit(0));
    assert ONE[0] != TWO[0];
    assert CaughtUp(s, 7);
    forall polls: seq<Action> | forall a :: a in polls ==> OnlyPolls(a, 7)
      ensures Run(s, polls).head == Some(TWO) && Run(s, polls).client == s.client
    {
      PollingSeesNothing(s, polls, 7);
      HeadStays(s, polls);
    }
  }

  lemma {:induction false} HeadStays(s: System, actions: seq<Action>)
    requires forall a :: a in actions ==> OnlyPolls(a, 7)
    ensures Run(s, actions).head == s.head
    decreases |actions|
  {
    if actions != [] {
      assert actions[0] in actions && OnlyPolls(actions[0], 7);
      HeadKept(s, actions[0]);
      hide Step;
      HeadStays(Step(s, actions[0]), actions[1..]);
    }
  }

  lemma HeadKept(s: System, a: Action)
    requires !a.AdvanceRef?
    ensures Step(s, a).head == s.head
  {
    hide IsListing, ValuesAlong, Having;
  }
}

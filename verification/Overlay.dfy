/** Per-agent copy-on-write overlays (src/overlay.rs) and the reads and writes routed through
    them (src/fuse.rs, src/fuse/resolve.rs). The tables are maps. */
module Overlay {
  import opened Base
  import opened TreeCodec
  import opened Merkle
  import opened Cas
  import opened Index
  import opened Listing
  import Hex

  type AgentId = nat
  type WorkspaceId = nat

  /** A row of `agent_overlay`; no hash means a tombstone. */
  datatype Row = Row(workspace: WorkspaceId, blobHex: Option<Str>)

  type Rows = map<(AgentId, Str), Row>

  datatype Resolution = InOverlay(hex: Str) | Base | Tombstone

  function Resolve(rows: Rows, agent: AgentId, path: Str): Resolution {
    if (agent, path) !in rows then Base
    else match rows[(agent, path)].blobHex
      case Some(hex) => InOverlay(hex)
      case None => Tombstone
  }

  datatype OverlayEntry = OverlayEntry(path: Str, row: Row)

  /** The rows of one agent, in path order. */
  ghost predicate EntriesOf(rows: Rows, agent: AgentId, es: seq<OverlayEntry>) {
    && (forall i, j :: 0 <= i < j < |es| ==> NameLe(es[i].path, es[j].path) && es[i].path != es[j].path)
    && (forall e :: e in es <==> (agent, e.path) in rows && rows[(agent, e.path)] == e.row)
  }

  class OverlayStore {
    var agents: map<AgentId, WorkspaceId>
    var nextAgent: AgentId
    var rows: Rows
    var roots: map<WorkspaceId, Str>

    ghost predicate Valid()
      reads this
    {
      nextAgent > 0 && forall a :: a in agents ==> 0 < a < nextAgent
    }

    constructor ()
      ensures Valid() && agents == map[] && rows == map[] && roots == map[]
    {
      agents, nextAgent, rows, roots := map[], 1, map[], map[];
    }

    /** Registering a root twice is a constraint violation. */
    method CreateWorkspaceRoot(ws: WorkspaceId, root: Str) returns (ok: bool)
      requires ws > 0 && root != []
      modifies this`roots
      ensures ok <==> ws !in old(roots)
      ensures roots == if ok then old(roots)[ws := root] else old(roots)
    {
      ok := ws !in roots;
      if ok {
        roots := roots[ws := root];
      }
    }

    /** A fork is one row: a new agent, and nothing else. */
    method Fork(workspace: WorkspaceId) returns (id: AgentId)
      requires Valid() && workspace > 0
      modifies this`agents, this`nextAgent
      ensures Valid() && id > 0 && id !in old(agents) && agents == old(agents)[id := workspace]
      ensures nextAgent == old(nextAgent) + 1 && id == old(nextAgent)
    {
      id := nextAgent;
      nextAgent := nextAgent + 1;
      agents := agents[id := workspace];
    }

    method CaptureWrite(agent: AgentId, workspace: WorkspaceId, path: Str, hex: Str)
      requires agent > 0 && hex != []
      modifies this`rows
      ensures rows == old(rows)[(agent, path) := Row(workspace, Some(hex))]
    {
      rows := rows[(agent, path) := Row(workspace, Some(hex))];
    }

    method CaptureDelete(agent: AgentId, workspace: WorkspaceId, path: Str)
      requires agent > 0 && workspace > 0
      modifies this`rows
      ensures rows == old(rows)[(agent, path) := Row(workspace, None)]
    {
      rows := rows[(agent, path) := Row(workspace, None)];
    }

    /** `SELECT .. WHERE agent_id = ?1 ORDER BY path` */
    method EntriesForAgent(agent: AgentId) returns (es: seq<OverlayEntry>)
      ensures EntriesOf(rows, agent, es)
    {
      hide NameLe;
      es := [];
      var todo := set k | k in rows && k.0 == agent :: k.1;
      while todo != {}
        invariant forall p :: p in todo ==> (agent, p) in rows
        invariant forall i, j :: 0 <= i < j < |es| ==> NameLe(es[i].path, es[j].path) && es[i].path != es[j].path
        invariant forall e :: e in es <==> (agent, e.path) in rows && e.path !in todo && rows[(agent, e.path)] == e.row
        invariant forall e, q :: e in es && q in todo ==> NameLe(e.path, q)
        decreases todo
      {
        ghost var least := LeastName(todo);
        var p :| p in todo && forall q :: q in todo ==> NameLe(p, q);
        assert forall e :: e in es ==> e.path != p;
        todo := todo - {p};
        es := es + [OverlayEntry(p, rows[(agent, p)])];
      }
    }
  }

  // ----- routed reads and writes --------------------------------------------------------

  datatype ReadError = BlobMissing | BadHex

  /** The blob a read is served from: the agent's own, none, or the base file's. */
  function Content(s: Store, index: PathIndex, rows: Rows, agent: AgentId, path: Str): Result<Option<Bytes>, ReadError> {
    match Resolve(rows, agent, path)
    case Tombstone => Ok(None)
    case InOverlay(hex) =>
      (match Hex.HexToHash(hex)
       case None => Err(BadHex)
       case Some(h) => if h in s then Ok(Some(s[h])) else Err(BlobMissing))
    case Base =>
      if path !in index then Ok(None)
      else if index[path].0 in s then Ok(Some(s[index[path].0]))
      else Err(BlobMissing)
  }

  /** What there is to read, from the agent's row and the index: nothing after a deletion or
      where neither has the path, a hash text that does not parse, a blob that is not stored, or
      the blob. */
  lemma ContentMeans(s: Store, index: PathIndex, rows: Rows, agent: AgentId, path: Str)
    ensures var content := Content(s, index, rows, agent, path);
            if (agent, path) in rows then
              match rows[(agent, path)].blobHex
              case None => content == Ok(None)
              case Some(hex) =>
                var h := Hex.HexToHash(hex);
                if h.None? then content == Err(BadHex)
                else content == if h.value in s then Ok(Some(s[h.value])) else Err(BlobMissing)
            else if path in index then
              var h := index[path].0;
              content == if h in s then Ok(Some(s[h])) else Err(BlobMissing)
            else content == Ok(None)
  {
    hide Hex.HexToHash;
  }

  /** `route_read`, of at most 128 MiB at once. */
  method RouteRead(store: MemStore, index: PathIndex, overlay: OverlayStore, agent: AgentId, path: Str,
                   offset: nat, size: nat) returns (r: Result<Option<Bytes>, ReadError>)
    requires size <= 134217728
    ensures r == match Content(store.data, index, overlay.rows, agent, path)
                 case Err(e) => Err(e)
                 case Ok(None) => Ok(None)
                 case Ok(Some(b)) => Ok(Some(Window(b, offset, size)))
  {
    var blob: Bytes;
    match Resolve(overlay.rows, agent, path) {
      case Tombstone =>
        return Ok(None);
      case InOverlay(hex) =>
        var h := Hex.HexToHash(hex);
        if h.None? {
          return Err(BadHex);
        }
        var got := store.Get(h.value);
        if got.None? {
          return Err(BlobMissing);
        }
        blob := got.value;
      case Base =>
        if path !in index {
          return Ok(None);
        }
        var got := store.Get(index[path].0);
        if got.None? {
          return Err(BlobMissing);
        }
        blob := got.value;
    }
    var start := Min(offset, |blob|);
    var end := Min(offset + size, |blob|);
    return Ok(Some(blob[start..end]));
  }

  /** `route_write`: store the blob, then record its hash. */
  method RouteWrite(store: MemStore, overlay: OverlayStore, agent: AgentId, workspace: WorkspaceId, path: Str, data: Bytes)
    returns (h: Hash)
    requires agent > 0 && path != []
    modifies store, overlay`rows
    ensures h == store.digest(data)
    ensures (store.data, overlay.rows) == WriteStep(store.digest, old(store.data), old(overlay.rows), agent, workspace, path, data)
  {
    h := store.Put(data);
    var hex := Hex.HashToHex(h);
    overlay.CaptureWrite(agent, workspace, path, hex);
  }

  /** `route_delete` */
  method RouteDelete(overlay: OverlayStore, agent: AgentId, workspace: WorkspaceId, path: Str)
    requires agent > 0 && workspace > 0 && path != []
    modifies overlay`rows
    ensures overlay.rows == DeleteStep(old(overlay.rows), agent, workspace, path)
  {
    overlay.CaptureDelete(agent, workspace, path);
  }

  function WriteStep(digest: Digest, s: Store, rows: Rows, agent: AgentId, ws: WorkspaceId, path: Str, data: Bytes): (Store, Rows) {
    var h := digest(data);
    (if h in s then s else s[h := data], rows[(agent, path) := Row(ws, Some(Hex.HashToHex(h)))])
  }

  function DeleteStep(rows: Rows, agent: AgentId, ws: WorkspaceId, path: Str): Rows {
    rows[(agent, path) := Row(ws, None)]
  }

  // ----- histories ----------------------------------------------------------------------

  datatype Op =
    | Forked(workspace: WorkspaceId)
    | Wrote(agent: AgentId, ws: WorkspaceId, path: Str, data: Bytes)
    | Deleted(dagent: AgentId, dws: WorkspaceId, dpath: Str)

  /** Blob store and overlay rows after a history. Forks touch neither. */
  function After(digest: Digest, s: Store, ops: seq<Op>): (Store, Rows) {
    if ops == [] then (s, map[])
    else
      var (s', rows) := After(digest, s, ops[..|ops| - 1]);
      match ops[|ops| - 1]
      case Forked(_) => (s', rows)
      case Wrote(a, ws, p, data) => WriteStep(digest, s', rows, a, ws, p, data)
      case Deleted(a, ws, p) => (s', DeleteStep(rows, a, ws, p))
  }

  /** One agent's own last word on a path: content, a deletion, or nothing. */
  datatype LastWord = Untouched | Removed | Holds(data: Bytes)

  function LastWordOn(ops: seq<Op>, agent: AgentId, path: Str): LastWord {
    if ops == [] then Untouched
    else match ops[|ops| - 1]
      case Wrote(a, _, p, data) => if a == agent && p == path then Holds(data) else LastWordOn(ops[..|ops| - 1], agent, path)
      case Deleted(a, _, p) => if a == agent && p == path then Removed else LastWordOn(ops[..|ops| - 1], agent, path)
      case Forked(_) => LastWordOn(ops[..|ops| - 1], agent, path)
  }

  /** The operations of one agent. */
  function Own(ops: seq<Op>, agent: AgentId): seq<Op> {
    if ops == [] then []
    else
      var last := ops[|ops| - 1];
      Own(ops[..|ops| - 1], agent)
      + (if (last.Wrote? && last.agent == agent) || (last.Deleted? && last.dagent == agent) then [last] else [])
  }

  /** No two blobs of the history or the store at its start share a digest. */
  ghost predicate NoCollision(digest: Digest, s: Store, ops: seq<Op>) {
    forall op :: op in ops && op.Wrote? ==>
      && (digest(op.data) in s ==> s[digest(op.data)] == op.data)
      && (forall op2 :: op2 in ops && op2.Wrote? && digest(op2.data) == digest(op.data) ==> op2.data == op.data)
  }

  /** Every written blob is kept under its digest, and nothing stored before changes. */
  lemma {:induction false} BlobsAreKept(digest: Digest, s: Store, ops: seq<Op>)
    requires NoCollision(digest, s, ops)
    ensures var s' := After(digest, s, ops).0;
            && Extends(s, s')
            && (forall op :: op in ops && op.Wrote? ==> digest(op.data) in s' && s'[digest(op.data)] == op.data)
            && (forall h :: h in s' && h !in s ==> exists op :: op in ops && op.Wrote? && digest(op.data) == h)
  {
    if ops != [] {
      var init, last := ops[..|ops| - 1], ops[|ops| - 1];
      assert ops == init + [last];
      assert forall op :: op in ops <==> op in init || op == last;
      BlobsAreKept(digest, s, init);
    }
  }

  /** The overlay row an agent has for a path is its last word on it. */
  lemma {:induction false} RowIsLastWord(digest: Digest, s: Store, ops: seq<Op>, agent: AgentId, path: Str)
    ensures var rows := After(digest, s, ops).1;
            match LastWordOn(ops, agent, path)
            case Untouched => Resolve(rows, agent, path) == Base
            case Removed => Resolve(rows, agent, path) == Tombstone
            case Holds(data) => Resolve(rows, agent, path) == InOverlay(Hex.HashToHex(digest(data)))
                                && exists op :: op in ops && op.Wrote? && op.data == data
  {
    if ops != [] {
      var init, last := ops[..|ops| - 1], ops[|ops| - 1];
      assert forall op :: op in ops <==> op in init || op == last;
      RowIsLastWord(digest, s, init, agent, path);
    }
  }

  /** Over any history of forks, writes and deletes by any agents, what an agent reads is its
      own last write, nothing after its own delete, and otherwise the base. */
  lemma ReadsAreOwnLastWord(digest: Digest, s: Store, index: PathIndex, ops: seq<Op>, agent: AgentId, path: Str)
    requires NoCollision(digest, s, ops)
    requires path in index ==> index[path].0 in s
    ensures var (s', rows) := After(digest, s, ops);
            Content(s', index, rows, agent, path) ==
            match LastWordOn(ops, agent, path)
            case Holds(data) => Ok(Some(data))
            case Removed => Ok(None)
            case Untouched => Ok(if path in index then Some(s[index[path].0]) else None)
  {
    BlobsAreKept(digest, s, ops);
    RowIsLastWord(digest, s, ops, agent, path);
    var last := LastWordOn(ops, agent, path);
    if last.Holds? {
      Hex.HashRoundTrip(digest(last.data));
    }
  }

  lemma LastWordSnoc(ops: seq<Op>, last: Op, agent: AgentId, path: Str)
    ensures LastWordOn(ops + [last], agent, path) ==
            match last
            case Wrote(a, _, p, data) => if a == agent && p == path then Holds(data) else LastWordOn(ops, agent, path)
            case Deleted(a, _, p) => if a == agent && p == path then Removed else LastWordOn(ops, agent, path)
            case Forked(_) => LastWordOn(ops, agent, path)
  {
    assert (ops + [last])[..|ops|] == ops;
  }

  lemma {:induction false} LastWordIsOwn(ops: seq<Op>, agent: AgentId, path: Str)
    ensures LastWordOn(ops, agent, path) == LastWordOn(Own(ops, agent), agent, path)
    ensures forall op :: op in Own(ops, agent) ==> op in ops
  {
    if ops != [] {
      var init, last := ops[..|ops| - 1], ops[|ops| - 1];
      assert ops == init + [last];
      LastWordIsOwn(init, agent, path);
      var own := Own(init, agent);
      LastWordSnoc(init, last, agent, path);
      LastWordSnoc(own, last, agent, path);
      hide LastWordOn;
      assert own + [] == own;
    }
  }

  /** What other agents do makes no difference: without their operations an agent reads the same
      from the store and overlay the history leaves. */
  lemma OthersDoNotMatter(digest: Digest, s: Store, index: PathIndex, ops: seq<Op>, agent: AgentId, path: Str)
    requires NoCollision(digest, s, ops)
    requires path in index ==> index[path].0 in s
    ensures var (all, rows) := After(digest, s, ops);
            var (some, ownRows) := After(digest, s, Own(ops, agent));
            Content(all, index, rows, agent, path) == Content(some, index, ownRows, agent, path)
  {
    hide Content, After;
    LastWordIsOwn(ops, agent, path);
    ReadsAreOwnLastWord(digest, s, index, ops, agent, path);
    ReadsAreOwnLastWord(digest, s, index, Own(ops, agent), agent, path);
  }

  // ----- sizes --------------------------------------------------------------------------

  /** The index holds the true length of every base blob that is stored. */
  ghost predicate SizesTrue(s: Store, index: PathIndex) {
    forall p :: p in index && index[p].0 in s ==> index[p].1 == |s[index[p].0]|
  }

  ghost function BaseSeam(index: PathIndex, files: seq<Str>): Seam
  {
    Seam(files, map p | p in index :: NodeMeta(FileKind, index[p].1, Some(index[p].0)))
  }

  /** All of a file as one agent sees it, with an overlay or without. */
  function FullContent(index: PathIndex, s: Store, overlay: Option<Rows>, agent: AgentId, path: Str): Result<Option<Bytes>, ReadError> {
    Content(s, index, if overlay.Some? then overlay.value else map[], agent, path)
  }

  /** `resolve_read`. `allowed` is the access check's answer; a mount may have no overlay. Through
      an overlay no more than 128 MiB may be asked for at once. */
  function ResolveRead(index: PathIndex, s: Store, overlay: Option<Rows>, allowed: bool, agent: AgentId, path: Str,
                       offset: nat, size: u32): Result<Bytes, FsError>
    requires allowed && overlay.Some? ==> size <= 134217728
  {
    if !allowed then Err(AccessDenied)
    else if overlay.Some? then
      match Content(s, index, overlay.value, agent, path)
      case Err(_) => Err(IoError)
      case Ok(None) => Err(NotFound)
      case Ok(Some(b)) => Ok(Window(b, offset, size))
    else if path !in index then Err(NotFound)
    else if index[path].0 !in s then Err(IoError)
    else
      var data := s[index[path].0];
      if offset >= |data| || size == 0 then Ok([]) else Ok(data[offset..Min(offset + size, |data|)])
  }

  /** `resolve_size`: overlay writes by their blob, directories as 0, base files by the index. */
  ghost function ResolveSize(index: PathIndex, files: seq<Str>, s: Store, overlay: Option<Rows>, allowed: bool,
                             agent: AgentId, path: Str): Result<nat, FsError> {
    if !allowed then Err(AccessDenied)
    else
      var resolution := if overlay.Some? then Resolve(overlay.value, agent, path) else Base;
      match resolution
      case Tombstone => Err(NotFound)
      case InOverlay(hex) =>
        (match Hex.HexToHash(hex)
         case None => Err(IoError)
         case Some(h) => if h in s then Ok(|s[h]|) else Err(IoError))
      case Base =>
        (match ResolvePath(BaseSeam(index, files), path)
         case Err(e) => Err(e)
         case Ok(meta) =>
           if meta.kind == DirKind then Ok(0)
           else if path in index then Ok(index[path].1) else Err(NotFound))
  }

  /** All a reader can be told, from the agent's row for the path and the base index. A denied
      agent gets nothing; a deleted or unknown path is not found; a hash that does not parse or
      whose blob is not stored is an error. */
  lemma AnswersMean(index: PathIndex, files: seq<Str>, s: Store, overlay: Option<Rows>, allowed: bool,
                    agent: AgentId, path: Str, offset: nat, size: u32)
    requires allowed && overlay.Some? ==> size <= 134217728
    ensures var read := ResolveRead(index, s, overlay, allowed, agent, path, offset, size);
            var length := ResolveSize(index, files, s, overlay, allowed, agent, path);
            if !allowed then read == Err(AccessDenied) && length == Err(AccessDenied)
            else if overlay.Some? && (agent, path) in overlay.value then
              match overlay.value[(agent, path)].blobHex
              case None => read == Err(NotFound) && length == Err(NotFound)
              case Some(hex) =>
                var h := Hex.HexToHash(hex);
                if h.None? || h.value !in s then read == Err(IoError) && length == Err(IoError)
                else read == Ok(Window(s[h.value], offset, size)) && length == Ok(|s[h.value]|)
            else if path in index then
              var (h, known) := index[path];
              && length == Ok(known)
              && read == (if h in s then Ok(Window(s[h], offset, size)) else Err(IoError))
            else
              && read == Err(NotFound)
              && length == (if path == [] || exists f :: f in files && path + [SLASH] <= f then Ok(0) else Err(NotFound))
  {
    hide Hex.HexToHash;
    if path in index && index[path].0 in s {
      var b := s[index[path].0];
      assert offset >= |b| || size == 0 ==> Window(b, offset, size) == [];
    }
  }

  /** Whenever a read succeeds, it is a window of the full content and the size the file is given
      is that content's length, however long it is; a content of at most 128 MiB is what one
      read of that size from the start gives. */
  lemma SizeIsContentLength(index: PathIndex, files: seq<Str>, s: Store, overlay: Option<Rows>, allowed: bool,
                            agent: AgentId, path: Str, offset: nat, size: u32)
    requires SizesTrue(s, index)
    requires allowed && overlay.Some? ==> size <= 134217728
    requires ResolveRead(index, s, overlay, allowed, agent, path, offset, size).Ok?
    ensures var full := FullContent(index, s, overlay, agent, path);
            && full.Ok? && full.value.Some?
            && ResolveSize(index, files, s, overlay, allowed, agent, path) == Ok(|full.value.value|)
            && ResolveRead(index, s, overlay, allowed, agent, path, offset, size).value == Window(full.value.value, offset, size)
            && (|full.value.value| <= 134217728 ==>
                  ResolveRead(index, s, overlay, allowed, agent, path, 0, |full.value.value|) == Ok(full.value.value))
  {
    var data := FullContent(index, s, overlay, agent, path).value.value;
    assert data[0..|data|] == data;
  }

  /** A freshly built index has true sizes, and no history of writes makes them wrong. */
  lemma SizesStayTrue(digest: Digest, s: Store, n: Node, index: PathIndex, ops: seq<Op>)
    requires IndexOf(s, n, index) && NoCollision(digest, s, ops)
    ensures SizesTrue(After(digest, s, ops).0, index)
    ensures forall p :: p in index ==> index[p].0 in s
  {
    BlobsAreKept(digest, s, ops);
    forall p | p in index ensures index[p].0 in s && index[p].1 == |s[index[p].0]| {
      var q :| FileAt(Some(n), q).Some? && Render(q) == p;
    }
  }
}

/** The file-id table of the NFS layer (src/nfs/ids.rs). Identifiers of the mounted snapshot are
    fixed; paths that appear later get fresh ones; a forgotten path keeps its identifier. File
    identifiers must be unique, as section 2.5 of RFC 1813 asks of a server. */
module Ids {
  import opened Base
  import Text
  import TreeCodec

  type Node = (Str, NodeKind)

  const MAX_PATH: nat := 4096

  /** The table's fields as one value. */
  datatype Table = Table(base: seq<Node>, baseIds: map<Str, nat>, nextId: nat,
                         idToNode: map<nat, Node>, pathToId: map<Str, nat>, tombstones: set<Str>)

  /** Base identifiers are 1 .. |base|, in list order; the root comes first. */
  ghost predicate ValidBase(base: seq<Node>, baseIds: map<Str, nat>) {
    && |base| > 0 && base[0] == ([], DirKind)
    && (forall i :: 0 <= i < |base| ==> base[i].0 in baseIds && baseIds[base[i].0] == i + 1)
    && (forall p :: p in baseIds ==> 1 <= baseIds[p] <= |base| && base[baseIds[p] - 1].0 == p)
  }

  /** Dynamic identifiers lie above them and below the next free one; both directions agree. */
  ghost predicate ValidDynamic(lowest: nat, nextId: nat, idToNode: map<nat, Node>, pathToId: map<Str, nat>) {
    && nextId > lowest
    && (forall id :: id in idToNode ==>
          lowest < id < nextId && idToNode[id].0 in pathToId && pathToId[idToNode[id].0] == id)
    && (forall p :: p in pathToId ==> pathToId[p] in idToNode && idToNode[pathToId[p]].0 == p)
  }

  ghost predicate Valid(t: Table) {
    && ValidBase(t.base, t.baseIds)
    && ValidDynamic(|t.base|, t.nextId, t.idToNode, t.pathToId)
    && t.baseIds.Keys !! t.pathToId.Keys
  }

  // ----- reading ------------------------------------------------------------------------

  function PathOf(t: Table, id: nat): Option<Node> {
    if id == 0 then None
    else if id in t.idToNode then
      if t.idToNode[id].0 in t.tombstones then None else Some(t.idToNode[id])
    else if id > |t.base| then None
    else if t.base[id - 1].0 in t.tombstones then None
    else Some(t.base[id - 1])
  }

  function IdOf(t: Table, path: Str): Option<nat> {
    if path in t.tombstones then None
    else if path in t.baseIds then Some(t.baseIds[path])
    else if path in t.pathToId then Some(t.pathToId[path])
    else None
  }

  /** What an identifier was given to, whether or not the path is hidden now. */
  function Owner(t: Table, id: nat): Option<Node> {
    if id in t.idToNode then Some(t.idToNode[id])
    else if 1 <= id <= |t.base| then Some(t.base[id - 1])
    else None
  }

  predicate Known(t: Table, path: Str) {
    path in t.baseIds || path in t.pathToId
  }

  predicate Visible(t: Table, path: Str) {
    Known(t, path) && path !in t.tombstones
  }

  /** Path and identifier lookups undo each other, on everything visible. */
  lemma LookupsAreInverse(t: Table, id: nat, path: Str)
    requires Valid(t)
    ensures IdOf(t, path) == Some(id) <==> PathOf(t, id).Some? && PathOf(t, id).value.0 == path
    ensures IdOf(t, path).Some? <==> Visible(t, path)
  {
  }

  /** No two identifiers are ever given to one path. */
  lemma OwnersDiffer(t: Table, a: nat, b: nat)
    requires Valid(t) && Owner(t, a).Some? && Owner(t, b).Some? && Owner(t, a).value.0 == Owner(t, b).value.0
    ensures a == b
  {
  }

  // ----- changing -----------------------------------------------------------------------

  function InternId(t: Table, path: Str): nat {
    if path in t.baseIds then t.baseIds[path]
    else if path in t.pathToId then t.pathToId[path]
    else t.nextId
  }

  function Intern(t: Table, path: Str, kind: NodeKind): Table {
    var shown := t.(tombstones := t.tombstones - {path});
    if Known(t, path) then shown
    else shown.(nextId := t.nextId + 1, idToNode := t.idToNode[t.nextId := (path, kind)],
                pathToId := t.pathToId[path := t.nextId])
  }

  function Forget(t: Table, path: Str): Table {
    t.(tombstones := t.tombstones + {path})
  }

  function RenamePath(t: Table, old_: Str, new_: Str, kind: NodeKind): Table {
    Intern(Forget(t, old_), new_, kind)
  }

  datatype Rename = Rename(from: Str, to: Str, kind: NodeKind)

  function ApplyRenames(t: Table, renames: seq<Rename>): Table {
    if renames == [] then t
    else
      var last := renames[|renames| - 1];
      RenamePath(ApplyRenames(t, renames[..|renames| - 1]), last.from, last.to, last.kind)
  }

  datatype Op =
    | OpIntern(path: Str, kind: NodeKind)
    | OpForget(fpath: Str)
    | OpRenamePath(from: Str, to: Str, rkind: NodeKind)
    | OpRenames(renames: seq<Rename>)

  function Step(t: Table, op: Op): Table {
    match op
    case OpIntern(p, k) => Intern(t, p, k)
    case OpForget(p) => Forget(t, p)
    case OpRenamePath(a, b, k) => RenamePath(t, a, b, k)
    case OpRenames(rs) => ApplyRenames(t, rs)
  }

  function Run(t: Table, ops: seq<Op>): Table {
    if ops == [] then t else Step(Run(t, ops[..|ops| - 1]), ops[|ops| - 1])
  }

  // ----- what every run keeps -----------------------------------------------------------

  /** Identifiers already given are kept, and new ones are above all of them. */
  ghost predicate Keeps(t: Table, t': Table) {
    && t'.base == t.base && t'.baseIds == t.baseIds
    && t'.nextId >= t.nextId
    && (forall id :: id in t.idToNode ==> id in t'.idToNode && t'.idToNode[id] == t.idToNode[id])
    && (forall id :: id in t'.idToNode && id !in t.idToNode ==> id >= t.nextId)
  }

  /** So an identifier never comes to mean another path. */
  lemma KeptIdsKeepTheirMeaning(t: Table, t': Table, id: nat)
    requires Valid(t) && Valid(t') && Keeps(t, t')
    ensures Owner(t, id).Some? ==> Owner(t', id) == Owner(t, id)
    ensures Owner(t', id).Some? && Owner(t, id).None? ==> id >= t.nextId
    ensures Owner(t, id).Some? ==> id < t.nextId
    ensures PathOf(t, id).Some? && PathOf(t', id).Some? ==> PathOf(t, id) == PathOf(t', id)
  {
  }

  lemma InternKeepsValid(t: Table, path: Str, kind: NodeKind)
    requires Valid(t)
    ensures Valid(Intern(t, path, kind)) && Keeps(t, Intern(t, path, kind))
  {
    hide ValidBase;
  }

  lemma InternSpec(t: Table, path: Str, kind: NodeKind)
    requires Valid(t)
    ensures var t' := Intern(t, path, kind);
            && Valid(t') && Keeps(t, t')
            && IdOf(t', path) == Some(InternId(t, path))
            && t'.tombstones == t.tombstones - {path}
            && (forall p :: Known(t', p) <==> Known(t, p) || p == path)
            && (forall p :: p != path ==> IdOf(t', p) == IdOf(t, p))
  {
    InternKeepsValid(t, path, kind);
    hide Valid, Keeps;
  }

  lemma ForgetSpec(t: Table, path: Str)
    requires Valid(t)
    ensures var t' := Forget(t, path);
            && Valid(t') && Keeps(t, t')
            && IdOf(t', path) == None
            && (forall p :: Known(t', p) <==> Known(t, p))
            && (forall p :: p != path ==> IdOf(t', p) == IdOf(t, p))
  {
    hide ValidBase, ValidDynamic;
  }

  lemma RenamePathSpec(t: Table, from: Str, to: Str, kind: NodeKind)
    requires Valid(t)
    ensures var t' := RenamePath(t, from, to, kind);
            && Valid(t') && Keeps(t, t')
            && t'.tombstones == (t.tombstones + {from}) - {to}
            && (forall p :: Known(t', p) <==> Known(t, p) || p == to)
            && (forall p :: p != from && p != to ==> IdOf(t', p) == IdOf(t, p))
  {
    hide Valid, Keeps;
    ForgetSpec(t, from);
    InternSpec(Forget(t, from), to, kind);
    KeepsTrans(t, Forget(t, from), RenamePath(t, from, to, kind));
  }

  lemma KeepsTrans(a: Table, b: Table, c: Table)
    requires Keeps(a, b) && Keeps(b, c)
    ensures Keeps(a, c)
  {
  }

  /** A batch of renames, whatever it holds and in whatever order. */
  lemma {:induction false} RenamesKeep(t: Table, renames: seq<Rename>)
    requires Valid(t)
    ensures Valid(ApplyRenames(t, renames)) && Keeps(t, ApplyRenames(t, renames))
  {
    hide Valid;
    if renames != [] {
      var init, last := renames[..|renames| - 1], renames[|renames| - 1];
      RenamesKeep(t, init);
      RenamePathSpec(ApplyRenames(t, init), last.from, last.to, last.kind);
      KeepsTrans(t, ApplyRenames(t, init), ApplyRenames(t, renames));
    }
  }

  /** Over any run, base and dynamic identifiers stay apart, lookups stay inverse, and no
      identifier ever comes to mean another path: a new path's identifier is larger than any
      given before. The root keeps 1. */
  lemma RunKeeps(t: Table, ops: seq<Op>)
    requires Valid(t)
    ensures var t' := Run(t, ops);
            && Valid(t') && Keeps(t, t')
            && (forall id: nat :: Owner(t, id).Some? ==> Owner(t', id) == Owner(t, id))
            && (forall id: nat :: Owner(t', id).Some? && Owner(t, id).None? ==> id >= t.nextId)
            && Owner(t', 1) == Some(([], DirKind))
  {
    RunIsValid(t, ops);
    var t' := Run(t, ops);
    forall id: nat ensures (Owner(t, id).Some? ==> Owner(t', id) == Owner(t, id))
                      && (Owner(t', id).Some? && Owner(t, id).None? ==> id >= t.nextId) {
      KeptIdsKeepTheirMeaning(t, t', id);
    }
    hide Run, Keeps;
    assert Owner(t', 1) == Some(t'.base[0]);
  }

  lemma {:induction false} RunIsValid(t: Table, ops: seq<Op>)
    requires Valid(t)
    ensures Valid(Run(t, ops)) && Keeps(t, Run(t, ops))
  {
    hide Keeps, ValidBase, ValidDynamic;
    if ops != [] {
      var init, last := ops[..|ops| - 1], ops[|ops| - 1];
      RunIsValid(t, init);
      var mid := Run(t, init);
      match last {
        case OpIntern(p, k) => InternSpec(mid, p, k);
        case OpForget(p) => ForgetSpec(mid, p);
        case OpRenamePath(a, b, k) => RenamePathSpec(mid, a, b, k);
        case OpRenames(rs) => RenamesKeep(mid, rs);
      }
      KeepsTrans(t, mid, Run(t, ops));
    } else {
      KeepsRefl(t);
    }
  }

  lemma KeepsRefl(t: Table)
    requires Valid(t)
    ensures Keeps(t, t)
  {
  }

  /** Identifiers have been given out one after the other, without a gap. */
  ghost predicate Gapless(t: Table) {
    forall id: nat :: Owner(t, id).Some? <==> 1 <= id < t.nextId
  }

  /** A new path gets the next identifier, and a known one takes none up. */
  lemma InternCounts(t: Table, path: Str, kind: NodeKind)
    requires Valid(t) && Gapless(t)
    ensures Gapless(Intern(t, path, kind))
    ensures Intern(t, path, kind).nextId == t.nextId + if path in t.baseIds || path in t.pathToId then 0 else 1
    ensures path !in t.baseIds && path !in t.pathToId ==> InternId(t, path) == t.nextId
  {
    hide ValidBase;
    var t' := Intern(t, path, kind);
    forall id: nat ensures Owner(t', id).Some? <==> 1 <= id < t'.nextId {
      assert Owner(t, id).Some? <==> 1 <= id < t.nextId;
    }
  }

  lemma {:induction false} RenamesAreGapless(t: Table, renames: seq<Rename>)
    requires Valid(t) && Gapless(t)
    ensures Gapless(ApplyRenames(t, renames))
  {
    if renames != [] {
      var init, last := renames[..|renames| - 1], renames[|renames| - 1];
      RenamesAreGapless(t, init);
      RenamesKeep(t, init);
      RenameIsGapless(ApplyRenames(t, init), last.from, last.to, last.kind);
    }
  }

  lemma RenameIsGapless(t: Table, from: Str, to: Str, kind: NodeKind)
    requires Valid(t) && Gapless(t)
    ensures Gapless(RenamePath(t, from, to, kind))
  {
    ForgetSpec(t, from);
    assert forall id: nat :: Owner(Forget(t, from), id) == Owner(t, id);
    hide Valid, Owner, Intern, Forget;
    InternCounts(Forget(t, from), to, kind);
  }

  /** Over any run the identifiers stay without gaps: those of the snapshot, then one more for
      each new path. */
  lemma {:induction false} RunIsGapless(t: Table, ops: seq<Op>)
    requires Valid(t) && Gapless(t)
    ensures Gapless(Run(t, ops))
  {
    hide Gapless;
    if ops != [] {
      var init, last := ops[..|ops| - 1], ops[|ops| - 1];
      RunIsGapless(t, init);
      RunIsValid(t, init);
      var mid := Run(t, init);
      match last {
        case OpIntern(p, k) => InternCounts(mid, p, k);
        case OpForget(p) => ForgetIsGapless(mid, p);
        case OpRenamePath(a, b, k) => RenameIsGapless(mid, a, b, k);
        case OpRenames(rs) => RenamesAreGapless(mid, rs);
      }
    }
  }

  lemma ForgetIsGapless(t: Table, path: Str)
    requires Gapless(t)
    ensures Gapless(Forget(t, path))
  {
    assert forall id: nat :: Owner(Forget(t, path), id) == Owner(t, id);
  }

  /** Interning reports the kind it was asked for exactly when the path had no identifier yet
      or had that kind: a path forgotten as a file and made again as a directory is still
      reported as a file. */
  lemma KindIsTheFirstOne(t: Table, path: Str, kind: NodeKind)
    requires Valid(t)
    ensures var t' := Intern(t, path, kind);
            PathOf(t', InternId(t, path)) == Some((path, kind)) <==>
            !Known(t, path) || Owner(t, InternId(t, path)) == Some((path, kind))
  {
  }

  // ----- renaming a subtree -------------------------------------------------------------

  /** `path == old_prefix || path.starts_with(old_prefix + "/")` */
  predicate Under(prefix: Str, path: Str) {
    path == prefix || prefix + [SLASH] <= path
  }

  function Image(path: Str, oldPrefix: Str, newPrefix: Str): Str
    requires |oldPrefix| <= |path|
  {
    newPrefix + path[|oldPrefix|..]
  }

  /** The paths a subtree rename collects: hidden ones too; images over 4096 bytes are left
      out. */
  predicate Collects(t: Table, oldPrefix: Str, newPrefix: Str, path: Str) {
    Known(t, path) && Under(oldPrefix, path) && |Image(path, oldPrefix, newPrefix)| <= 4096
  }

  /** A list of the collected renames, each once, in any order. */
  ghost predicate CollectedList(t: Table, oldPrefix: Str, newPrefix: Str, renames: seq<Rename>) {
    && (forall i, j :: 0 <= i < j < |renames| ==> renames[i].from != renames[j].from)
    && (forall r :: r in renames ==>
          && Collects(t, oldPrefix, newPrefix, r.from) && r.to == Image(r.from, oldPrefix, newPrefix)
          && Owner(t, InternId(t, r.from)) == Some((r.from, r.kind)))
    && (forall p :: Collects(t, oldPrefix, newPrefix, p) ==> exists i :: 0 <= i < |renames| && renames[i].from == p)
  }

  /** Which paths a subtree rename takes along, and where to: one that ever had an identifier, is
      the old prefix or has it and a slash in front, and is not too long under the new one. */
  lemma CollectsMeans(t: Table, oldPrefix: Str, newPrefix: Str, rest: Str)
    ensures Collects(t, oldPrefix, newPrefix, oldPrefix + rest) <==>
              && (oldPrefix + rest in t.baseIds || oldPrefix + rest in t.pathToId)
              && (rest == [] || rest[0] == Text.Ascii("/")[0])
              && |newPrefix| + |rest| <= 4096
    ensures Image(oldPrefix + rest, oldPrefix, newPrefix) == newPrefix + rest
    ensures forall p :: Collects(t, oldPrefix, newPrefix, p) ==> p == oldPrefix + p[|oldPrefix|..]
  {
    var p := oldPrefix + rest;
    assert p[|oldPrefix|..] == rest;
    assert Text.Ascii("/") == [SLASH];
    assert oldPrefix + [SLASH] <= p <==> rest != [] && rest[0] == SLASH by {
      if rest != [] && rest[0] == SLASH {
        assert p == oldPrefix + [SLASH] + rest[1..];
      }
      if oldPrefix + [SLASH] <= p {
        assert p[|oldPrefix|] == (oldPrefix + [SLASH])[|oldPrefix|] == SLASH;
      }
    }
    assert p == oldPrefix <==> rest == [];
  }

  /** No collected path is the image of another: what a batch of renames needs to be
      independent of its order. */
  ghost predicate Disjoint(t: Table, oldPrefix: Str, newPrefix: Str) {
    forall p, q :: Collects(t, oldPrefix, newPrefix, p) && Collects(t, oldPrefix, newPrefix, q) ==>
                   Image(p, oldPrefix, newPrefix) != q
  }

  /** What renaming a subtree is for: every collected path is hidden, its image shown, and all
      other paths are left alone. */
  ghost predicate Moved(t: Table, t': Table, oldPrefix: Str, newPrefix: Str) {
    && (forall p :: Collects(t, oldPrefix, newPrefix, p) ==>
          !Visible(t', p) && Visible(t', Image(p, oldPrefix, newPrefix)))
    && (forall q :: !Collects(t, oldPrefix, newPrefix, q)
                    && (forall p :: Collects(t, oldPrefix, newPrefix, p) ==> Image(p, oldPrefix, newPrefix) != q) ==>
          IdOf(t', q) == IdOf(t, q))
  }

  predicate IsFrom(renames: seq<Rename>, p: Str) {
    exists i :: 0 <= i < |renames| && renames[i].from == p
  }

  predicate IsTo(renames: seq<Rename>, p: Str) {
    exists i :: 0 <= i < |renames| && renames[i].to == p
  }

  /** What is to hold of `p` after a batch. */
  predicate RenamedAt(t: Table, t': Table, p: Str, from: bool, to: bool) {
    && (from ==> p in t'.tombstones)
    && (to ==> Visible(t', p))
    && (!from && !to ==> IdOf(t', p) == IdOf(t, p))
    && (Known(t', p) <==> Known(t, p) || to)
  }

  lemma OneMoreRename(t: Table, mid: Table, r: Rename, p: Str, from: bool, to: bool)
    requires Valid(mid) && RenamedAt(t, mid, p, from, to)
    requires (to ==> r.from != p) && (from ==> r.to != p) && r.from != r.to
    ensures RenamedAt(t, RenamePath(mid, r.from, r.to, r.kind), p, from || r.from == p, to || r.to == p)
  {
    RenamePathSpec(mid, r.from, r.to, r.kind);
    hide Valid, Keeps, RenamePath;
  }

  /** A batch whose sources and targets do not meet hides all sources and shows all targets. */
  lemma {:induction false} DisjointRenames(t: Table, renames: seq<Rename>, p: Str)
    requires Valid(t)
    requires forall i, j :: 0 <= i < |renames| && 0 <= j < |renames| ==> renames[i].to != renames[j].from
    ensures RenamedAt(t, ApplyRenames(t, renames), p, IsFrom(renames, p), IsTo(renames, p))
  {
    if renames != [] {
      var init, last := renames[..|renames| - 1], renames[|renames| - 1];
      assert forall i :: 0 <= i < |init| ==> init[i] == renames[i];
      DisjointRenames(t, init, p);
      RenamesKeep(t, init);
      IsFromTo(init, last, p);
      assert init + [last] == renames;
      assert IsTo(init, p) ==> last.from != p;
      assert IsFrom(init, p) ==> last.to != p;
      hide Valid, Keeps, IsFrom, IsTo, RenamedAt, RenamePath;
      OneMoreRename(t, ApplyRenames(t, init), last, p, IsFrom(init, p), IsTo(init, p));
    }
  }

  lemma IsFromTo(init: seq<Rename>, last: Rename, p: Str)
    ensures IsFrom(init + [last], p) <==> IsFrom(init, p) || last.from == p
    ensures IsTo(init + [last], p) <==> IsTo(init, p) || last.to == p
  {
    var all := init + [last];
    assert forall i :: 0 <= i < |init| ==> all[i] == init[i];
    assert all[|init|] == last;
  }

  /** A subtree rename does what it is for exactly when no image is itself collected. */
  lemma SubtreeMovesIff(t: Table, oldPrefix: Str, newPrefix: Str, renames: seq<Rename>)
    requires Valid(t) && CollectedList(t, oldPrefix, newPrefix, renames)
    ensures Moved(t, ApplyRenames(t, renames), oldPrefix, newPrefix) <==> Disjoint(t, oldPrefix, newPrefix)
  {
    hide Valid, ApplyRenames, Keeps;
    var t' := ApplyRenames(t, renames);
    if Disjoint(t, oldPrefix, newPrefix) {
      forall i, j | 0 <= i < |renames| && 0 <= j < |renames| ensures renames[i].to != renames[j].from {
        assert renames[i] in renames && renames[j] in renames;
      }
      forall p ensures IsFrom(renames, p) <==> Collects(t, oldPrefix, newPrefix, p) {
        if IsFrom(renames, p) {
          var i :| 0 <= i < |renames| && renames[i].from == p;
          assert renames[i] in renames;
        }
      }
      forall q ensures IsTo(renames, q) <==> exists p :: Collects(t, oldPrefix, newPrefix, p) && Image(p, oldPrefix, newPrefix) == q {
        if IsTo(renames, q) {
          var i :| 0 <= i < |renames| && renames[i].to == q;
          assert renames[i] in renames && Image(renames[i].from, oldPrefix, newPrefix) == q;
        }
        if p :| Collects(t, oldPrefix, newPrefix, p) && Image(p, oldPrefix, newPrefix) == q {
          var i :| 0 <= i < |renames| && renames[i].from == p;
          assert renames[i] in renames && renames[i].to == q;
        }
      }
      forall p ensures (IsFrom(renames, p) ==> p in t'.tombstones) && (IsTo(renames, p) ==> Visible(t', p))
                       && (!IsFrom(renames, p) && !IsTo(renames, p) ==> IdOf(t', p) == IdOf(t, p)) {
        DisjointRenames(t, renames, p);
      }
    }
  }

  /** An image falls under the old prefix only when one prefix lies under the other. */
  lemma ImageUnderOldPrefix(p: Str, oldPrefix: Str, newPrefix: Str)
    requires Under(oldPrefix, p) && Under(oldPrefix, Image(p, oldPrefix, newPrefix))
    ensures Under(oldPrefix, newPrefix) || Under(newPrefix, oldPrefix)
  {
    var s := p[|oldPrefix|..];
    assert s == [] || s[0] == SLASH;
    var image := newPrefix + s;
    assert oldPrefix <= image;
    if |oldPrefix| <= |newPrefix| {
      assert oldPrefix == image[..|oldPrefix|] == newPrefix[..|oldPrefix|];
      if |oldPrefix| < |newPrefix| {
        assert oldPrefix + [SLASH] <= newPrefix;
      }
    } else {
      assert newPrefix == image[..|newPrefix|] == oldPrefix[..|newPrefix|];
      assert oldPrefix[|newPrefix|] == image[|newPrefix|] == s[0];
      assert newPrefix + [SLASH] <= oldPrefix;
    }
  }

  /** So unrelated prefixes never meet. */
  lemma UnrelatedPrefixesAreDisjoint(t: Table, oldPrefix: Str, newPrefix: Str)
    requires !Under(oldPrefix, newPrefix) && !Under(newPrefix, oldPrefix)
    ensures Disjoint(t, oldPrefix, newPrefix)
  {
    forall p, q | Collects(t, oldPrefix, newPrefix, p) && Collects(t, oldPrefix, newPrefix, q)
      ensures Image(p, oldPrefix, newPrefix) != q
    {
      if Under(oldPrefix, Image(p, oldPrefix, newPrefix)) {
        ImageUnderOldPrefix(p, oldPrefix, newPrefix);
      }
    }
  }

  /** The visible paths move exactly as a rename should move them iff every hidden path that is
      collected has an image that was visible anyway: the collection does not look at
      tombstones, so a deleted file under the old prefix comes back under the new one. */
  lemma VisibleMoveIff(t: Table, oldPrefix: Str, newPrefix: Str, renames: seq<Rename>)
    requires Valid(t) && CollectedList(t, oldPrefix, newPrefix, renames) && Disjoint(t, oldPrefix, newPrefix)
    ensures (forall x :: Visible(ApplyRenames(t, renames), x) <==>
               (Visible(t, x) && !Collects(t, oldPrefix, newPrefix, x))
               || exists p :: Collects(t, oldPrefix, newPrefix, p) && Visible(t, p) && Image(p, oldPrefix, newPrefix) == x)
       <==> (forall p :: Collects(t, oldPrefix, newPrefix, p) && !Visible(t, p) ==>
               Visible(t, Image(p, oldPrefix, newPrefix)))
  {
    var t' := ApplyRenames(t, renames);
    SubtreeMovesIff(t, oldPrefix, newPrefix, renames);
    RenamesKeep(t, renames);
    forall x ensures (IdOf(t', x).Some? <==> Visible(t', x)) && (IdOf(t, x).Some? <==> Visible(t, x)) {
      LookupsAreInverse(t', 0, x);
      LookupsAreInverse(t, 0, x);
    }
    hide Valid, ApplyRenames, CollectedList, IdOf, Keeps;
    forall p, q | Collects(t, oldPrefix, newPrefix, p) && Collects(t, oldPrefix, newPrefix, q)
                  && Image(p, oldPrefix, newPrefix) == Image(q, oldPrefix, newPrefix)
      ensures p == q
    {
      ImageInjective(p, q, oldPrefix, newPrefix);
    }
  }

  lemma ImageInjective(p: Str, q: Str, oldPrefix: Str, newPrefix: Str)
    requires Under(oldPrefix, p) && Under(oldPrefix, q) && Image(p, oldPrefix, newPrefix) == Image(q, oldPrefix, newPrefix)
    ensures p == q
  {
    var a, b := Image(p, oldPrefix, newPrefix), Image(q, oldPrefix, newPrefix);
    assert a[|newPrefix|..] == p[|oldPrefix|..] && b[|newPrefix|..] == q[|oldPrefix|..];
    assert p == oldPrefix + p[|oldPrefix|..] && q == oldPrefix + q[|oldPrefix|..];
  }

  // ----- where subtree renames go wrong -------------------------------------------------

  const A: Str := [97]
  const A_B: Str := [97, 47, 98]
  const C: Str := [99]
  const C_B: Str := [99, 47, 98]

  /** `a/b`, made after the mount, with its directory. */
  function Nested(hidden: set<Str>): Table {
    Table([([], DirKind)], map[[] := 1], 4, map[2 := (A, DirKind), 3 := (A_B, FileKind)], map[A := 2, A_B := 3], hidden)
  }

  lemma NestedIsValid(hidden: set<Str>)
    ensures Valid(Nested(hidden))
  {
    assert A != A_B by { assert |A| != |A_B|; }
  }

  /** Renaming `a` to `a/b`: the image of `a` is itself collected, so no order of the batch does
      what a rename is for. */
  lemma RenameBelowItselfFails(renames: seq<Rename>)
    requires CollectedList(Nested({}), A, A_B, renames)
    ensures !Moved(Nested({}), ApplyRenames(Nested({}), renames), A, A_B)
  {
    var t := Nested({});
    NestedIsValid({});
    assert A_B[..1] == A;
    assert Image(A, A, A_B) == A_B;
    assert Collects(t, A, A_B, A) && Collects(t, A, A_B, A_B);
    SubtreeMovesIff(t, A, A_B, renames);
  }

  /** Renaming `a` to `c` after `a/b` was forgotten: the deleted file is shown as `c/b`. */
  lemma RenameRevivesForgotten(renames: seq<Rename>)
    requires CollectedList(Nested({A_B}), A, C, renames)
    ensures !Visible(Nested({A_B}), A_B) && Visible(ApplyRenames(Nested({A_B}), renames), C_B)
    ensures !forall x :: Visible(ApplyRenames(Nested({A_B}), renames), x) <==>
              (Visible(Nested({A_B}), x) && !Collects(Nested({A_B}), A, C, x))
              || exists p :: Collects(Nested({A_B}), A, C, p) && Visible(Nested({A_B}), p) && Image(p, A, C) == x
  {
    var t := Nested({A_B});
    NestedIsValid({A_B});
    assert A_B[..1] == A && C_B[..1] == C;
    assert Image(A_B, A, C) == C_B;
    assert Collects(t, A, C, A_B) && !Visible(t, A_B) && !Visible(t, C_B);
    assert !Under(A, C) && !Under(C, A);
    UnrelatedPrefixesAreDisjoint(t, A, C);
    VisibleMoveIff(t, A, C, renames);
    SubtreeMovesIff(t, A, C, renames);
  }

  // ----- building the base range --------------------------------------------------------

  /** `p` is a directory on the way to the file `f`. */
  predicate IsAncestor(p: Str, f: Str) {
    |p| < |f| && p == f[..|p|] && f[|p|] == SLASH
  }

  /** An ancestor of a file is what stands in front of one of its slashes. */
  lemma AncestorMeans(p: Str, f: Str)
    ensures IsAncestor(p, f) <==> exists rest: Str :: f == p + Text.Ascii("/") + rest
  {
    assert Text.Ascii("/") == [SLASH];
    if IsAncestor(p, f) {
      assert f == p + [SLASH] + f[|p| + 1..];
    }
  }

  /** The nodes of a snapshot: its files, the directories above them, and the root. A path that
      is a file and also lies above one can get either kind. */
  ghost predicate NodesOf(files: set<Str>, nodes: map<Str, NodeKind>) {
    && (forall p :: p in nodes <==> p == [] || p in files || exists f :: f in files && IsAncestor(p, f))
    && (forall p :: p in nodes && nodes[p] == FileKind ==> p in files)
    && (forall p :: p in nodes && nodes[p] == DirKind ==> p == [] || exists f :: f in files && IsAncestor(p, f))
  }

  /** What one file adds to the node set; entries already there stay. */
  ghost predicate AddsFile(before: map<Str, NodeKind>, after: map<Str, NodeKind>, f: Str) {
    && (forall p :: p in after <==> p in before || p == f || IsAncestor(p, f))
    && (forall p :: p in before ==> after[p] == before[p])
    && (forall p :: p in after && p !in before ==> after[p] == if IsAncestor(p, f) then DirKind else FileKind)
  }

  method AddFile(before: map<Str, NodeKind>, f: Str) returns (nodes: map<Str, NodeKind>)
    ensures AddsFile(before, nodes, f)
  {
    nodes := before;
    var i := 0;
    while i < |f|
      invariant 0 <= i <= |f|
      invariant forall p :: p in nodes <==> p in before || (|p| < i && IsAncestor(p, f))
      invariant forall p :: p in before ==> nodes[p] == before[p]
      invariant forall p :: p in nodes && p !in before ==> nodes[p] == DirKind
    {
      if f[i] == SLASH && f[..i] !in nodes {
        nodes := nodes[f[..i] := DirKind];
      }
      assert forall p :: IsAncestor(p, f) && |p| == i ==> p == f[..i];
      i := i + 1;
    }
    if f !in nodes {
      nodes := nodes[f := FileKind];
    }
  }

  lemma NodesGrow(done: set<Str>, f: Str, before: map<Str, NodeKind>, after: map<Str, NodeKind>)
    requires NodesOf(done, before) && AddsFile(before, after, f)
    ensures NodesOf(done + {f}, after)
  {
    hide IsAncestor;
    var files := done + {f};
    assert forall p :: (exists g :: g in files && IsAncestor(p, g)) <==>
                       IsAncestor(p, f) || exists g :: g in done && IsAncestor(p, g);
  }

  method CollectNodes(files: set<Str>) returns (nodes: map<Str, NodeKind>)
    ensures NodesOf(files, nodes) && nodes[[]] == DirKind
  {
    hide AddsFile, NodesOf, IsAncestor;
    nodes := map[[] := DirKind];
    RootOnly();
    var todo := files;
    assert files - todo == {};
    while todo != {}
      invariant todo <= files
      invariant NodesOf(files - todo, nodes) && [] in nodes && nodes[[]] == DirKind
      decreases todo
    {
      var f :| f in todo;
      ghost var done, before := files - todo, nodes;
      todo := todo - {f};
      assert files - todo == done + {f};
      nodes := AddFile(nodes, f);
      NodesGrow(done, f, before, nodes);
      KeepsEntry(before, nodes, f, []);
    }
    assert files - todo == files;
  }

  lemma RootOnly()
    ensures NodesOf({}, map[[] := DirKind])
  {
  }

  lemma KeepsEntry(before: map<Str, NodeKind>, after: map<Str, NodeKind>, f: Str, p: Str)
    requires AddsFile(before, after, f) && p in before
    ensures p in after && after[p] == before[p]
  {
  }

  /** Strictly sorted by path, in byte order. */
  ghost predicate Sorted(nodes: seq<Node>) {
    forall i, j :: 0 <= i < j < |nodes| ==> TreeCodec.NameLe(nodes[i].0, nodes[j].0) && nodes[i].0 != nodes[j].0
  }

  /** The nodes as a list in path order. */
  method SortNodes(nodes: map<Str, NodeKind>) returns (sorted: seq<Node>)
    ensures Sorted(sorted)
    ensures forall n :: n in sorted <==> n.0 in nodes && nodes[n.0] == n.1
  {
    hide TreeCodec.NameLe;
    sorted := [];
    var rest := nodes.Keys;
    while rest != {}
      invariant rest <= nodes.Keys
      invariant Sorted(sorted)
      invariant forall n :: n in sorted <==> n.0 in nodes && n.0 !in rest && nodes[n.0] == n.1
      invariant forall n, q :: n in sorted && q in rest ==> TreeCodec.NameLe(n.0, q)
      decreases rest
    {
      ghost var least := TreeCodec.LeastName(rest);
      var p :| p in rest && forall q :: q in rest ==> TreeCodec.NameLe(p, q);
      assert forall n :: n in sorted ==> n.0 != p;
      rest := rest - {p};
      sorted := sorted + [(p, nodes[p])];
    }
  }

  /** The order, and so every identifier, is determined by the nodes: two mounts of one
      snapshot number it alike. */
  lemma {:induction false} SortedListsAgree(a: seq<Node>, b: seq<Node>)
    requires Sorted(a) && Sorted(b) && forall n :: n in a <==> n in b
    ensures a == b
    decreases |a|
  {
    hide TreeCodec.NameLe;
    var probe := if a != [] then a[0] else if b != [] then b[0] else ([], DirKind);
    assert probe in a <==> probe in b;
    if a != [] && b != [] {
      assert a[0] in b && b[0] in a;
      TreeCodec.NameLeTotal(a[0].0, b[0].0);
      var i :| 0 <= i < |b| && b[i] == a[0];
      var j :| 0 <= j < |a| && a[j] == b[0];
      assert a[0].0 == b[0].0;
      assert i == 0;
      var a', b' := a[1..], b[1..];
      assert a == [a[0]] + a' && b == [b[0]] + b';
      forall n ensures n in a' <==> n in b' {
        assert n in a' ==> n in a && n != a[0];
        assert n in b' ==> n in b && n != b[0];
      }
      SortedListsAgree(a', b');
    }
  }

  method AssignIds(sorted: seq<Node>) returns (ids: map<Str, nat>)
    requires forall i, j :: 0 <= i < j < |sorted| ==> sorted[i].0 != sorted[j].0
    ensures forall i :: 0 <= i < |sorted| ==> sorted[i].0 in ids && ids[sorted[i].0] == i + 1
    ensures forall p :: p in ids ==> exists j :: 0 <= j < |sorted| && sorted[j].0 == p
  {
    ids := map[];
    var i := 0;
    while i < |sorted|
      invariant 0 <= i <= |sorted|
      invariant forall j :: 0 <= j < i ==> sorted[j].0 in ids && ids[sorted[j].0] == j + 1
      invariant forall p :: p in ids ==> exists j :: 0 <= j < i && sorted[j].0 == p
    {
      ids := ids[sorted[i].0 := i + 1];
      i := i + 1;
    }
  }

  // ----- the table ----------------------------------------------------------------------

  class IdTable {
    const base: seq<Node>
    const baseIds: map<Str, nat>
    var nextId: nat
    var idToNode: map<nat, Node>
    var pathToId: map<Str, nat>
    var tombstones: set<Str>

    ghost function Value(): Table
      reads this
    {
      Table(base, baseIds, nextId, idToNode, pathToId, tombstones)
    }

    /** Built from the file paths of an index. */
    constructor Build(files: set<Str>)
      ensures Valid(Value()) && Sorted(base) && tombstones == {} && idToNode == map[] && nextId == |base| + 1
      ensures Gapless(Value())
      ensures exists nodes :: NodesOf(files, nodes) && forall n :: n in base <==> n.0 in nodes && nodes[n.0] == n.1
    {
      var nodes := CollectNodes(files);
      var sorted := SortNodes(nodes);
      var ids := AssignIds(sorted);
      assert ([], DirKind) in sorted;
      BaseIsValid(sorted, ids);
      base, baseIds := sorted, ids;
      nextId, idToNode, pathToId, tombstones := |sorted| + 1, map[], map[], {};
    }

    method GetPath(id: nat) returns (r: Option<Node>)
      ensures r == PathOf(Value(), id)
    {
      if id == 0 {
        return None;
      }
      if id in idToNode {
        if idToNode[id].0 in tombstones {
          return None;
        }
        return Some(idToNode[id]);
      }
      if id > |base| || base[id - 1].0 in tombstones {
        return None;
      }
      return Some(base[id - 1]);
    }

    method GetId(path: Str) returns (r: Option<nat>)
      ensures r == IdOf(Value(), path)
    {
      if path in tombstones {
        return None;
      }
      if path in baseIds {
        return Some(baseIds[path]);
      }
      return if path in pathToId then Some(pathToId[path]) else None;
    }

    method InternPath(path: Str, kind: NodeKind) returns (id: nat)
      requires |path| <= MAX_PATH
      modifies this
      ensures Value() == Intern(old(Value()), path, kind) && id == InternId(old(Value()), path)
    {
      tombstones := tombstones - {path};
      if path in baseIds {
        return baseIds[path];
      }
      if path in pathToId {
        return pathToId[path];
      }
      id := nextId;
      nextId := id + 1;
      idToNode := idToNode[id := (path, kind)];
      pathToId := pathToId[path := id];
    }

    method ForgetPath(path: Str)
      requires |path| <= MAX_PATH
      modifies this
      ensures Value() == Forget(old(Value()), path)
    {
      tombstones := tombstones + {path};
    }

    method RenameFile(old_: Str, new_: Str, kind: NodeKind)
      requires |old_| <= MAX_PATH && |new_| <= MAX_PATH
      modifies this
      ensures Value() == RenamePath(old(Value()), old_, new_, kind)
    {
      tombstones := tombstones + {old_};
      var _ := InternPath(new_, kind);
    }

    /** `rename_subtree`: collect, then apply, in whatever order the hash maps give. */
    method RenameSubtree(oldPrefix: Str, newPrefix: Str) returns (ghost renames: seq<Rename>)
      requires Valid(Value()) && |oldPrefix| <= MAX_PATH && |newPrefix| <= MAX_PATH
      modifies this
      ensures CollectedList(old(Value()), oldPrefix, newPrefix, renames)
      ensures Value() == ApplyRenames(old(Value()), renames)
    {
      var list := Collect(oldPrefix, newPrefix);
      renames := list;
      ghost var start := Value();
      assert forall r :: r in list ==> |r.to| <= MAX_PATH;
      hide Valid, CollectedList, Collects, Owner, RenamePath;
      var i := 0;
      assert list[..0] == [];
      while i < |list|
        invariant 0 <= i <= |list|
        invariant Value() == ApplyRenames(start, list[..i])
      {
        assert list[i] in list;
        ApplyOne(list[i]);
        assert list[..i + 1][..i] == list[..i];
        i := i + 1;
      }
      assert list[..i] == list;
    }

    /** One collected rename: a tombstone and an intern. */
    method ApplyOne(r: Rename)
      requires |r.to| <= MAX_PATH
      modifies this
      ensures Value() == RenamePath(old(Value()), r.from, r.to, r.kind)
    {
      tombstones := tombstones + {r.from};
      var _ := InternPath(r.to, r.kind);
    }

    method Collect(oldPrefix: Str, newPrefix: Str) returns (renames: seq<Rename>)
      requires Valid(Value())
      ensures CollectedList(Value(), oldPrefix, newPrefix, renames)
    {
      renames := [];
      var paths := baseIds.Keys + pathToId.Keys;
      ghost var t := Value();
      while paths != {}
        invariant paths <= baseIds.Keys + pathToId.Keys
        invariant forall i, j :: 0 <= i < j < |renames| ==> renames[i].from != renames[j].from
        invariant forall r :: r in renames ==>
          && r.from !in paths && Collects(t, oldPrefix, newPrefix, r.from) && r.to == Image(r.from, oldPrefix, newPrefix)
          && Owner(t, InternId(t, r.from)) == Some((r.from, r.kind))
        invariant forall p :: Collects(t, oldPrefix, newPrefix, p) && p !in paths ==>
          exists i :: 0 <= i < |renames| && renames[i].from == p
        decreases paths
      {
        var path :| path in paths;
        paths := paths - {path};
        if !Under(oldPrefix, path) {
          continue;
        }
        var newPath := Image(path, oldPrefix, newPrefix);
        if |newPath| > MAX_PATH {
          continue;
        }
        var kind := if path in baseIds then base[baseIds[path] - 1].1 else idToNode[pathToId[path]].1;
        ghost var before := renames;
        renames := renames + [Rename(path, newPath, kind)];
        assert forall i :: 0 <= i < |before| ==> renames[i] == before[i];
        assert renames[|before|].from == path;
      }
    }
  }

  lemma BaseIsValid(sorted: seq<Node>, ids: map<Str, nat>)
    requires Sorted(sorted) && ([], DirKind) in sorted
    requires forall i :: 0 <= i < |sorted| ==> sorted[i].0 in ids && ids[sorted[i].0] == i + 1
    requires forall p :: p in ids ==> exists j :: 0 <= j < |sorted| && sorted[j].0 == p
    ensures ValidBase(sorted, ids)
  {
    forall p | p in ids ensures 1 <= ids[p] <= |sorted| && sorted[ids[p] - 1].0 == p {
      var j :| 0 <= j < |sorted| && sorted[j].0 == p;
    }
  }
}

/** `extract_patch` (src/patch.rs): one agent's overlay as a unified diff against the base. */
module OverlayPatch {
  import opened Base
  import opened Merkle
  import opened TreeCodec
  import opened Cas
  import opened Index
  import opened Overlay
  import opened PatchText
  import Hex

  /** A missing blob is printed as an empty file. */
  function BlobOrEmpty(s: Store, h: Hash): Bytes {
    if h in s then s[h] else []
  }

  /** Removing a path the base does not have changes nothing. */
  predicate IsNoOp(base: PathIndex, e: OverlayEntry) {
    e.row.blobHex.None? && e.path !in base
  }

  /** The change an overlay row stands for, or the hash text that cannot be read. */
  function ChangeOf(s: Store, base: PathIndex, e: OverlayEntry): Result<FileChange, Str> {
    var beforeHex := if e.path in base then Some(Hex.HashToHex(base[e.path].0)) else None;
    var before := if e.path in base then BlobOrEmpty(s, base[e.path].0) else [];
    match e.row.blobHex
    case None => Ok(FileChange(e.path, beforeHex, None, before, []))
    case Some(hex) =>
      match Hex.HexToHash(hex)
      case None => Err(hex)
      case Some(h) => Ok(FileChange(e.path, beforeHex, Some(hex), before, BlobOrEmpty(s, h)))
  }

  function Changes(s: Store, base: PathIndex, es: seq<OverlayEntry>): Result<seq<FileChange>, Str> {
    if es == [] then Ok([])
    else if IsNoOp(base, es[0]) then Changes(s, base, es[1..])
    else
      match ChangeOf(s, base, es[0])
      case Err(hex) => Err(hex)
      case Ok(c) =>
        match Changes(s, base, es[1..])
        case Err(hex) => Err(hex)
        case Ok(more) => Ok([c] + more)
  }

  function Printed(done: Str, cs: Result<seq<FileChange>, Str>): Result<Str, Str> {
    match cs case Err(hex) => Err(hex) case Ok(cs) => Ok(done + PatchOf(cs))
  }

  /** Rows in path order; the first hash that cannot be read ends the whole extraction. */
  method ExtractPatch(overlay: OverlayStore, cas: MemStore, base: PathIndex, agent: AgentId)
    returns (r: Result<Str, Str>, ghost es: seq<OverlayEntry>)
    ensures EntriesOf(overlay.rows, agent, es)
    ensures r == Printed([], Changes(cas.data, base, es))
  {
    var entries := overlay.EntriesForAgent(agent);
    es := entries;
    hide EntriesOf, SectionLines, ChangeOf;
    var out: Str := [];
    var i := 0;
    assert entries[0..] == entries;
    while i < |entries|
      invariant 0 <= i <= |entries|
      invariant Printed([], Changes(cas.data, base, entries)) == Printed(out, Changes(cas.data, base, entries[i..]))
    {
      var entry := entries[i];
      assert entries[i..][1..] == entries[i + 1..];
      PrintedStep(out, cas.data, base, entries[i..]);
      if !IsNoOp(base, entry) {
        var change := ChangeOf(cas.data, base, entry);
        if change.Err? {
          return Err(change.error), es;
        }
        HasASide(cas.data, base, entry);
        out := AppendFileDiff(out, change.value);
      }
      i := i + 1;
    }
    assert out + [] == out;
    return Ok(out), es;
  }

  lemma HasASide(s: Store, base: PathIndex, e: OverlayEntry)
    requires !IsNoOp(base, e) && ChangeOf(s, base, e).Ok?
    ensures var c := ChangeOf(s, base, e).value; c.beforeHex.Some? || c.afterHex.Some?
  {
  }

  lemma PrintedStep(out: Str, s: Store, base: PathIndex, es: seq<OverlayEntry>)
    requires es != []
    ensures Printed(out, Changes(s, base, es)) ==
            if IsNoOp(base, es[0]) then Printed(out, Changes(s, base, es[1..]))
            else match ChangeOf(s, base, es[0])
              case Err(hex) => Err(hex)
              case Ok(c) => Printed(out + Unlines(SectionLines(c)), Changes(s, base, es[1..]))
  {
    hide ChangeOf, SectionLines, Unlines;
    if !IsNoOp(base, es[0]) {
      var c, more := ChangeOf(s, base, es[0]), Changes(s, base, es[1..]);
      if c.Ok? && more.Ok? {
        var cs := [c.value] + more.value;
        assert cs[1..] == more.value;
        assert out + (Unlines(SectionLines(c.value)) + PatchOf(more.value)) == out + Unlines(SectionLines(c.value)) + PatchOf(more.value);
      }
    }
  }

  // ----- any rows, any stores -----------------------------------------------------------

  /** A row whose hash text does not parse. */
  predicate BadRow(e: OverlayEntry) {
    e.row.blobHex.Some? && Hex.HexToHash(e.row.blobHex.value).None?
  }

  /** What is printed for a row: the base's file as it was, and what the row puts there. A blob
      that is not stored is printed as an empty file. */
  ghost predicate SaysRow(s: Store, base: PathIndex, e: OverlayEntry, c: FileChange) {
    && c.path == e.path && c.afterHex == e.row.blobHex
    && (if e.path in base then
          var h := base[e.path].0;
          c.beforeHex == Some(Hex.HashToHex(h)) && c.before == if h in s then s[h] else []
        else c.beforeHex == None && c.before == [])
    && (if e.row.blobHex.Some? then
          var h := Hex.HexToHash(e.row.blobHex.value);
          h.Some? && c.after == if h.value in s then s[h.value] else []
        else c.after == [])
  }

  /** The extraction fails exactly at the first row whose hash does not parse; otherwise every row
      is printed but the removals of paths the base does not have. */
  lemma {:induction false} ChangesMean(s: Store, base: PathIndex, es: seq<OverlayEntry>)
    ensures Changes(s, base, es).Err? <==> exists e :: e in es && BadRow(e)
    ensures forall i: nat :: i < |es| && BadRow(es[i]) && (forall j: nat :: j < i ==> !BadRow(es[j])) ==>
              Changes(s, base, es) == Err(es[i].row.blobHex.value)
    ensures Changes(s, base, es).Ok? ==>
              && (forall e :: e in es && (e.row.blobHex.Some? || e.path in base) ==>
                    exists c :: c in Changes(s, base, es).value && SaysRow(s, base, e, c))
              && (forall c :: c in Changes(s, base, es).value ==>
                    exists e :: e in es && (e.row.blobHex.Some? || e.path in base) && SaysRow(s, base, e, c))
    decreases |es|
  {
    if es != [] {
      var first, rest := es[0], es[1..];
      ChangesMean(s, base, rest);
      RowMeans(s, base, first);
      hide ChangeOf, SaysRow, BadRow;
      FirstBad(es);
      if Changes(s, base, es).Ok? && !IsNoOp(base, first) {
        var c, more := ChangeOf(s, base, first).value, Changes(s, base, rest).value;
        assert forall d :: d in [c] + more <==> d == c || d in more;
      }
    }
  }

  /** The first bad row is the first row, or the first bad one of the rest. */
  lemma FirstBad(es: seq<OverlayEntry>)
    requires es != []
    ensures forall e :: e in es <==> e == es[0] || e in es[1..]
    ensures forall i: nat :: i < |es| && BadRow(es[i]) && (forall j: nat :: j < i ==> !BadRow(es[j])) ==>
              if i == 0 then BadRow(es[0])
              else !BadRow(es[0]) && BadRow(es[1..][i - 1]) && es[1..][i - 1] == es[i]
                   && forall j: nat :: j < i - 1 ==> !BadRow(es[1..][j])
  {
    hide BadRow;
    var rest := es[1..];
    assert forall i: nat :: i < |rest| ==> rest[i] == es[i + 1];
    forall i: nat | 0 < i < |es| && BadRow(es[i]) && (forall j: nat :: j < i ==> !BadRow(es[j]))
      ensures !BadRow(es[0]) && forall j: nat :: j < i - 1 ==> !BadRow(rest[j])
    {
      assert !BadRow(es[0]);
      forall j: nat | j < i - 1 ensures !BadRow(rest[j]) {
        assert !BadRow(es[j + 1]);
      }
    }
  }

  lemma RowMeans(s: Store, base: PathIndex, e: OverlayEntry)
    ensures IsNoOp(base, e) <==> !(e.row.blobHex.Some? || e.path in base)
    ensures if BadRow(e) then ChangeOf(s, base, e) == Err(e.row.blobHex.value)
            else ChangeOf(s, base, e).Ok? && SaysRow(s, base, e, ChangeOf(s, base, e).value)
    ensures BadRow(e) ==> !IsNoOp(base, e)
  {
  }

  // ----- the patch says what the agent did ----------------------------------------------

  /** A hash text that can be read has 64 bytes and no newline. */
  lemma {:induction false} RadixHasNoNewline(s: Str)
    requires Hex.DecodeRadix(s).Some?
    ensures NEWLINE !in s
  {
    if s != [] {
      RadixHasNoNewline(s[2..]);
      assert s == [s[0], s[1]] + s[2..];
    }
  }

  /** What a change should be, from the base and the agent's last word. */
  ghost predicate SaysLastWord(digest: Digest, s: Store, base: PathIndex, ops: seq<Op>, agent: AgentId, c: FileChange) {
    && c.beforeHex == (if c.path in base then Some(Hex.HashToHex(base[c.path].0)) else None)
    && (c.path in base ==> base[c.path].0 in s && c.before == s[base[c.path].0])
    && (c.path !in base ==> c.before == [])
    && match LastWordOn(ops, agent, c.path)
       case Untouched => false
       case Removed => c.path in base && c.afterHex.None? && c.after == []
       case Holds(data) => c.afterHex == Some(Hex.HashToHex(digest(data))) && c.after == data
  }

  /** Paths the agent's history leaves different in kind from "as in the base". */
  predicate Listed(base: PathIndex, ops: seq<Op>, agent: AgentId, p: Str) {
    var w := LastWordOn(ops, agent, p);
    w.Holds? || (w.Removed? && p in base)
  }

  lemma RowIsSaid(digest: Digest, s: Store, base: PathIndex, ops: seq<Op>, agent: AgentId, e: OverlayEntry)
    requires NoCollision(digest, s, ops)
    requires forall p :: p in base ==> base[p].0 in s
    requires var rows := After(digest, s, ops).1; (agent, e.path) in rows && rows[(agent, e.path)] == e.row
    ensures IsNoOp(base, e) <==> !Listed(base, ops, agent, e.path)
    ensures !IsNoOp(base, e) ==>
              var c := ChangeOf(After(digest, s, ops).0, base, e);
              c.Ok? && c.value.path == e.path && Wf(c.value) && SaysLastWord(digest, s, base, ops, agent, c.value)
  {
    BlobsAreKept(digest, s, ops);
    RowIsLastWord(digest, s, ops, agent, e.path);
    var last := LastWordOn(ops, agent, e.path);
    if e.path in base {
      Hex.EncodeInverse(base[e.path].0);
      RadixHasNoNewline(Hex.HashToHex(base[e.path].0));
    }
    if last.Holds? {
      Hex.HashRoundTrip(digest(last.data));
      RadixHasNoNewline(Hex.HashToHex(digest(last.data)));
    }
  }

  lemma {:induction false} ChangesAreSaid(digest: Digest, s: Store, base: PathIndex, ops: seq<Op>, agent: AgentId,
                                          es: seq<OverlayEntry>)
    requires NoCollision(digest, s, ops)
    requires forall p :: p in base ==> base[p].0 in s
    requires forall e :: e in es ==> (agent, e.path) in After(digest, s, ops).1 && After(digest, s, ops).1[(agent, e.path)] == e.row
    requires forall i, j :: 0 <= i < j < |es| ==> es[i].path != es[j].path
    ensures var cs := Changes(After(digest, s, ops).0, base, es);
            && cs.Ok?
            && (forall c :: c in cs.value ==> Wf(c) && SaysLastWord(digest, s, base, ops, agent, c)
                                              && exists e :: e in es && e.path == c.path)
            && (forall e :: e in es && Listed(base, ops, agent, e.path) ==> exists c :: c in cs.value && c.path == e.path)
            && (forall i, j :: 0 <= i < j < |cs.value| ==> cs.value[i].path != cs.value[j].path)
    decreases |es|
  {
    hide After, NoCollision, SaysLastWord, Wf, Listed, ChangeOf, IsNoOp;
    if es != [] {
      ChangesAreSaid(digest, s, base, ops, agent, es[1..]);
      assert es[0] in es;
      RowIsSaid(digest, s, base, ops, agent, es[0]);
      var s' := After(digest, s, ops).0;
      var more := Changes(s', base, es[1..]).value;
      assert forall e :: e in es <==> e == es[0] || e in es[1..];
      if !IsNoOp(base, es[0]) {
        var c := ChangeOf(s', base, es[0]).value;
        var cs := [c] + more;
        assert forall d :: d in cs <==> d == c || d in more;
        forall j | 0 <= j < |more| ensures more[j].path != c.path {
          assert more[j] in more;
        }
      }
    }
  }

  /** Over any history of forks, writes and deletes by any agents, the patch extracted for one
      agent reads back as exactly one section for each path the agent last wrote, or removed
      from the base, holding the base's text and that last write; the patch is exact when no
      such path has a newline in it, and not otherwise. */
  lemma PatchSaysWhatTheAgentDid(digest: Digest, s: Store, base: PathIndex, ops: seq<Op>, agent: AgentId,
                                 es: seq<OverlayEntry>)
    requires NoCollision(digest, s, ops)
    requires forall p :: p in base ==> base[p].0 in s
    requires EntriesOf(After(digest, s, ops).1, agent, es)
    ensures var cs := Changes(After(digest, s, ops).0, base, es);
            && cs.Ok?
            && (forall c :: c in cs.value ==> SaysLastWord(digest, s, base, ops, agent, c))
            && (forall p :: Listed(base, ops, agent, p) <==> exists c :: c in cs.value && c.path == p)
            && (forall i, j :: 0 <= i < j < |cs.value| ==> cs.value[i].path != cs.value[j].path)
            && (ReadPatch(PatchOf(cs.value)) == Some(SectionsOf(cs.value))
                <==> forall p :: Listed(base, ops, agent, p) ==> NEWLINE !in p)
  {
    hide After, NoCollision, Wf, ChangeOf, IsNoOp, NameLe, ReadPatch, PatchOf;
    var rows := After(digest, s, ops).1;
    ChangesAreSaid(digest, s, base, ops, agent, es);
    var cs := Changes(After(digest, s, ops).0, base, es).value;
    forall p | Listed(base, ops, agent, p) ensures exists c :: c in cs && c.path == p {
      RowIsLastWord(digest, s, ops, agent, p);
      var e := OverlayEntry(p, rows[(agent, p)]);
      assert e in es;
    }
    forall c | c in cs ensures Listed(base, ops, agent, c.path) {
    }
    PatchReadsBackIff(cs);
  }
}

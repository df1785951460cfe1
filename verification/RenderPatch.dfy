/** `render_patch` (src/patch.rs): the changes of a tree diff as a unified diff. */
module RenderPatch {
  import opened Base
  import opened Merkle
  import opened TreeCodec
  import Index
  import Diff
  import Hex
  import OverlayPatch
  import opened PatchText

  function Side(s: Store, blob: Option<Hash>): (Option<Str>, Bytes) {
    match blob
    case None => (None, [])
    case Some(h) => (Some(Hex.HashToHex(h)), OverlayPatch.BlobOrEmpty(s, h))
  }

  function FileChangeOf(s: Store, c: Diff.Change): FileChange {
    var (oldHex, oldBytes), (newHex, newBytes) := Side(s, c.oldBlob), Side(s, c.newBlob);
    FileChange(Index.Render(c.path), oldHex, newHex, oldBytes, newBytes)
  }

  function FileChangesOf(s: Store, changes: seq<Diff.Change>): (fs: seq<FileChange>)
    ensures |fs| == |changes|
  {
    seq(|changes|, i requires 0 <= i < |changes| => FileChangeOf(s, changes[i]))
  }

  method RenderPatch(s: Store, changes: seq<Diff.Change>) returns (out: Str)
    requires forall c :: c in changes ==> c.oldBlob.Some? || c.newBlob.Some?
    ensures out == PatchOf(FileChangesOf(s, changes))
  {
    hide SectionLines, FileChangeOf, Unlines;
    out := [];
    var i := 0;
    ghost var all := FileChangesOf(s, changes);
    assert all[0..] == all;
    while i < |changes|
      invariant 0 <= i <= |changes|
      invariant PatchOf(all) == out + PatchOf(all[i..])
    {
      var c := FileChangeOf(s, changes[i]);
      assert all[i..][0] == c && all[i..][1..] == all[i + 1..];
      SidesKept(s, changes[i]);
      assert changes[i] in changes;
      out := AppendFileDiff(out, c);
      i := i + 1;
    }
    assert out + [] == out;
  }

  lemma SidesKept(s: Store, c: Diff.Change)
    ensures var f := FileChangeOf(s, c);
            (f.beforeHex.Some? <==> c.oldBlob.Some?) && (f.afterHex.Some? <==> c.newBlob.Some?)
  {
  }

  lemma ChangeIsWf(s: Store, c: Diff.Change)
    requires c.oldBlob.Some? || c.newBlob.Some?
    ensures Wf(FileChangeOf(s, c))
  {
    if c.oldBlob.Some? {
      Hex.EncodeInverse(c.oldBlob.value);
      OverlayPatch.RadixHasNoNewline(Hex.HashToHex(c.oldBlob.value));
    }
    if c.newBlob.Some? {
      Hex.EncodeInverse(c.newBlob.value);
      OverlayPatch.RadixHasNoNewline(Hex.HashToHex(c.newBlob.value));
    }
  }

  /** One side of a section: the file's hash in hexadecimal and its bytes, or nothing. A blob that
      is not stored is printed as an empty file. */
  predicate SaysSide(s: Store, file: Option<Hash>, hex: Option<Str>, bytes: Bytes) {
    match file
    case None => hex == None && bytes == []
    case Some(h) => hex == Some(Hex.HashToHex(h)) && bytes == if h in s then s[h] else []
  }

  /** What a section should say about path `p` of the two trees. */
  predicate SaysChange(s: Store, o: Node, n: Node, p: Path, f: FileChange) {
    && f.path == Index.Render(p)
    && SaysSide(s, FileAt(Some(o), p), f.beforeHex, f.before)
    && SaysSide(s, FileAt(Some(n), p), f.afterHex, f.after)
  }

  lemma ExactIsSaid(s: Store, o: Node, n: Node, c: Diff.Change)
    requires Diff.ExactChange(s, o, n, c.path) == Some(c)
    ensures SaysChange(s, o, n, c.path, FileChangeOf(s, c)) && Wf(FileChangeOf(s, c))
    ensures FileAt(Some(o), c.path) != FileAt(Some(n), c.path)
    ensures FileChangeOf(s, c).path == Index.Render(c.path)
  {
    hide Wf, Index.Render;
    ChangeIsWf(s, c);
  }

  /** From two trees to text and back: an exact change list, rendered and read back, gives one
      section for each path whose file differs, with the two trees' contents there, if and only
      if no such path has a newline in it. */
  lemma RenderedDiffReadsBackIff(s: Store, o: Node, n: Node, changes: seq<Diff.Change>)
    requires Diff.ListsExact(s, o, n, changes)
    ensures var fs := FileChangesOf(s, changes);
            && (forall i :: 0 <= i < |fs| ==> SaysChange(s, o, n, changes[i].path, fs[i]))
            && (forall p :: FileAt(Some(o), p) != FileAt(Some(n), p) <==>
                            exists i :: 0 <= i < |fs| && changes[i].path == p)
            && (ReadPatch(PatchOf(fs)) == Some(SectionsOf(fs)) <==>
                forall p :: FileAt(Some(o), p) != FileAt(Some(n), p) ==> NEWLINE !in Index.Render(p))
  {
    hide ReadPatch, PatchOf, Wf, Index.Render, SaysChange, FileChangeOf;
    var fs := FileChangesOf(s, changes);
    forall i | 0 <= i < |fs|
      ensures SaysChange(s, o, n, changes[i].path, fs[i]) && Wf(fs[i])
      ensures FileAt(Some(o), changes[i].path) != FileAt(Some(n), changes[i].path)
      ensures fs[i].path == Index.Render(changes[i].path)
    {
      assert changes[i] in changes;
      ExactIsSaid(s, o, n, changes[i]);
    }
    forall p | FileAt(Some(o), p) != FileAt(Some(n), p)
      ensures exists i :: 0 <= i < |fs| && changes[i].path == p
    {
      assert Diff.ExactChange(s, o, n, p).Some?;
      var c := Diff.ExactChange(s, o, n, p).value;
      assert c in changes;
    }
    PatchReadsBackIff(fs);
    assert forall i :: 0 <= i < |fs| ==> fs[i] in fs;
  }
}

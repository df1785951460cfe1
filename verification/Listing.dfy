/** Paths to attributes and directory listings (src/fuse/translate.rs), and the overlay-aware
    view of the files they are computed from (src/nfs/overlay_view.rs). Only files are stored;
    a directory exists because some file lies under it. */
module Listing {
  import opened Base
  import opened TreeCodec
  import opened Merkle
  import opened Index
  import opened ConflictName
  import Text

  datatype NodeMeta = NodeMeta(kind: NodeKind, size: nat, hash: Option<Hash>)

  datatype FsError = NotFound | NotADir | IsADir | IoError | AccessDenied

  datatype DirEntry = DirEntry(name: Str, kind: NodeKind)

  /** What the translation layer sees of an index: the files, listed in the order of some hash
      map, and what looking one up gives. */
  datatype Seam = Seam(files: seq<Str>, metas: map<Str, NodeMeta>)

  ghost predicate SeamOk(x: Seam) {
    && NoDup(x.files)
    && (forall p :: p in x.files <==> p in x.metas)
    && (forall p :: p in x.metas ==> x.metas[p].kind == FileKind)
  }

  const DIR_META: NodeMeta := NodeMeta(DirKind, 0, None)

  predicate AnyUnder(files: seq<Str>, dir: Str) {
    exists f :: f in files && dir + [SLASH] <= f
  }

  function ResolvePath(x: Seam, path: Str): Result<NodeMeta, FsError> {
    if path in x.metas then Ok(x.metas[path])
    else if path == [] || AnyUnder(x.files, path) then Ok(DIR_META)
    else Err(NotFound)
  }

  function Window(b: Bytes, offset: nat, size: nat): Bytes {
    b[Min(offset, |b|)..Min(offset + size, |b|)]
  }

  /** `read_slice`: `hydrate` is what the store answers for the file's hash. */
  function ReadSlice(x: Seam, hydrate: Hash -> Option<Bytes>, path: Str, offset: nat, size: nat): (r: Result<Bytes, FsError>)
    ensures r.Ok? ==> path in x.metas && x.metas[path].hash.Some? && hydrate(x.metas[path].hash.value).Some?
                      && r.value == Window(hydrate(x.metas[path].hash.value).value, offset, size)
    ensures (path in x.metas && x.metas[path].kind == FileKind && x.metas[path].hash.Some?
             && hydrate(x.metas[path].hash.value).Some?) ==> r.Ok?
    ensures r == Err(NotFound) <==> path !in x.metas && path != [] && forall f :: f in x.files ==> !(path + [SLASH] <= f)
    ensures r == Err(IsADir) <==>
              if path in x.metas then x.metas[path].kind == DirKind else path == [] || exists f :: f in x.files && path + [SLASH] <= f
    ensures r.Err? ==> r.error in {NotFound, IsADir, IoError}
  {
    var meta :- ResolvePath(x, path);
    if meta.kind == DirKind then Err(IsADir)
    else if meta.hash.None? then Err(IoError)
    else match hydrate(meta.hash.value)
      case None => Err(IoError)
      case Some(bytes) =>
        if offset >= |bytes| || size == 0 then Ok([]) else Ok(bytes[offset..Min(offset + size, |bytes|)])
  }

  /** A window is as many bytes from the offset on as there are, up to the size. */
  lemma WindowIs(b: Bytes, offset: nat, size: nat)
    ensures var w := Window(b, offset, size);
            && |w| == (if |b| <= offset then 0 else if |b| - offset < size then |b| - offset else size)
            && forall k: nat :: k < |w| ==> w[k] == b[offset + k]
  {
  }

  /** What stat says: a file's own attributes, size 0 for a directory, which the root always is and
      any other path if some file lies under it. */
  lemma StatMeans(x: Seam, path: Str)
    requires SeamOk(x)
    ensures var dir := path == [] || exists f :: f in x.files && path + Text.Ascii("/") <= f;
            ResolvePath(x, path) == if path in x.files then Ok(x.metas[path])
                                    else if dir then Ok(NodeMeta(DirKind, 0, None)) else Err(NotFound)
  {
    assert Text.Ascii("/") == [SLASH];
  }

  // ----- directory listings -------------------------------------------------------------

  const DOTS: seq<DirEntry> := [DirEntry([DOT], DirKind), DirEntry([DOT, DOT], DirKind)]

  /** Every listing begins with the directory itself and its parent. */
  lemma DotsAre()
    ensures DOTS == [DirEntry(Text.Ascii("."), DirKind), DirEntry(Text.Ascii(".."), DirKind)]
  {
    assert Text.Ascii(".") == [DOT] && Text.Ascii("..") == [DOT, DOT];
  }

  /** Everything up to the first slash. */
  function FirstSegment(s: Str): Str {
    if s == [] || s[0] == SLASH then [] else [s[0]] + FirstSegment(s[1..])
  }

  function Prefix(dir: Str): Str {
    if dir == [] then [] else dir + [SLASH]
  }

  /** The child of a directory a file lies under, and whether it is the file itself. */
  function ChildOf(prefix: Str, file: Str): Option<DirEntry> {
    if !(prefix <= file) then None
    else
      var rest := file[|prefix|..];
      var component := FirstSegment(rest);
      if component == [] then None
      else Some(DirEntry(component, if SLASH in rest then DirKind else FileKind))
  }

  /** One entry for each child, of the kind the first file that shows it gives it. */
  function ListFrom(prefix: Str, files: seq<Str>, seen: set<Str>): seq<DirEntry>
    decreases |files|
  {
    if files == [] then []
    else match ChildOf(prefix, files[0])
      case None => ListFrom(prefix, files[1..], seen)
      case Some(e) =>
        if e.name in seen then ListFrom(prefix, files[1..], seen)
        else [e] + ListFrom(prefix, files[1..], seen + {e.name})
  }

  /** `read_dir` */
  method ReadDir(x: Seam, path: Str) returns (r: Result<seq<DirEntry>, FsError>)
    ensures path != [] && path in x.metas ==> r == Err(NotADir)
    ensures path != [] && path !in x.metas && !AnyUnder(x.files, path) ==> r == Err(NotFound)
    ensures path == [] || (path !in x.metas && AnyUnder(x.files, path)) ==>
              r == Ok(DOTS + ListFrom(Prefix(path), x.files, {[DOT], [DOT, DOT]}))
  {
    if path != [] {
      if path in x.metas {
        return Err(NotADir);
      }
      if !AnyUnder(x.files, path) {
        return Err(NotFound);
      }
    }
    var prefix := Prefix(path);
    var seen: set<Str> := {[DOT], [DOT, DOT]};
    var entries := DOTS;
    ghost var all := ListFrom(prefix, x.files, seen);
    var i := 0;
    assert x.files[0..] == x.files;
    while i < |x.files|
      invariant 0 <= i <= |x.files|
      invariant DOTS + all == entries + ListFrom(prefix, x.files[i..], seen)
    {
      hide ChildOf;
      assert x.files[i..][0] == x.files[i] && x.files[i..][1..] == x.files[i + 1..];
      var child := ChildOf(prefix, x.files[i]);
      i := i + 1;
      if child.None? || child.value.name in seen {
        continue;
      }
      ghost var before, tail := entries, ListFrom(prefix, x.files[i..], seen + {child.value.name});
      seen := seen + {child.value.name};
      entries := entries + [child.value];
      assert before + ([child.value] + tail) == entries + tail;
    }
    assert entries + [] == entries;
    return Ok(entries);
  }

  // ----- listings agree with stat -------------------------------------------------------

  /** A name a directory can list: not one of the two dot entries. */
  predicate ChildName(c: Str) {
    GoodName(c) && c != [DOT] && c != [DOT, DOT]
  }

  /** No file lies under another file. */
  ghost predicate PrefixFree(files: set<Str>) {
    forall p, q :: p in files && q in files ==> !(p + [SLASH] <= q)
  }

  function JoinChild(dir: Str, c: Str): Str {
    Prefix(dir) + c
  }

  /** What makes a name a child: a file at it, or a file under it. */
  lemma ChildMeaning(prefix: Str, file: Str, c: Str)
    requires ChildName(c)
    ensures ChildOf(prefix, file) == Some(DirEntry(c, FileKind)) <==> file == prefix + c
    ensures ChildOf(prefix, file) == Some(DirEntry(c, DirKind)) <==> prefix + c + [SLASH] <= file
  {
    if prefix <= file {
      var rest := file[|prefix|..];
      SegmentMeaning(rest, c);
      assert file == prefix + rest;
      assert prefix + c + [SLASH] <= file <==> c + [SLASH] <= rest by {
        assert prefix + c + [SLASH] == prefix + (c + [SLASH]);
      }
    } else {
      assert prefix + c + [SLASH] == prefix + (c + [SLASH]);
    }
  }

  lemma {:induction false} SegmentMeaning(s: Str, c: Str)
    requires c != [] && SLASH !in c
    ensures FirstSegment(s) == c && SLASH !in s <==> s == c
    ensures FirstSegment(s) == c && SLASH in s <==> c + [SLASH] <= s
  {
    FirstSegmentSplits(s);
    var f := FirstSegment(s);
    if c + [SLASH] <= s {
      assert s[|c|] == SLASH && s[..|c|] == c;
      assert s[|c|] in s;
      assert forall k :: 0 <= k < |c| ==> s[k] == c[k];
    }
  }

  lemma {:induction false} FirstSegmentSplits(s: Str)
    ensures var f := FirstSegment(s);
            f <= s && SLASH !in f && (|f| < |s| ==> s[|f|] == SLASH)
  {
    if s != [] && s[0] != SLASH {
      FirstSegmentSplits(s[1..]);
      assert s == [s[0]] + s[1..];
    }
  }

  predicate Shows(prefix: Str, file: Str, c: Str) {
    ChildOf(prefix, file).Some? && ChildOf(prefix, file).value.name == c
  }

  /** A listing names each child once, with the kind of the first file that shows it. */
  lemma {:induction false} ListingSpec(prefix: Str, files: seq<Str>, seen: set<Str>, c: Str)
    ensures var l := ListFrom(prefix, files, seen);
            && (forall i, j :: 0 <= i < j < |l| ==> l[i].name != l[j].name)
            && (forall e :: e in l ==> e.name !in seen)
            && (forall e :: e in l && e.name == c ==> exists k :: 0 <= k < |files| && ChildOf(prefix, files[k]) == Some(e))
            && (c !in seen ==> forall k :: 0 <= k < |files| && Shows(prefix, files[k], c) ==>
                  exists e :: e in l && e.name == c)
    decreases |files|
  {
    hide ChildOf;
    if files != [] {
      var rest := files[1..];
      assert forall k :: 0 <= k < |rest| ==> rest[k] == files[k + 1];
      var child := ChildOf(prefix, files[0]);
      if child.None? || child.value.name in seen {
        ListingSpec(prefix, rest, seen, c);
        ListingTail(prefix, files, seen, c);
      } else {
        ListingSpec(prefix, rest, seen + {child.value.name}, c);
        var tail := ListFrom(prefix, rest, seen + {child.value.name});
        var l := ListFrom(prefix, files, seen);
        assert l == [child.value] + tail;
        forall e | e in l && e.name == c ensures exists k :: 0 <= k < |files| && ChildOf(prefix, files[k]) == Some(e) {
          if e in tail {
            var k :| 0 <= k < |rest| && ChildOf(prefix, rest[k]) == Some(e);
            assert files[k + 1] == rest[k];
          }
        }
        if child.value.name == c {
          assert child.value in l;
        } else if e :| e in tail && e.name == c {
          assert e in l;
        }
        forall k | 0 <= k < |files| && Shows(prefix, files[k], c)
          ensures c !in seen ==> exists e :: e in l && e.name == c
        {
          if child.value.name != c {
            assert rest[k - 1] == files[k];
          }
        }
      }
    }
  }

  lemma ListingTail(prefix: Str, files: seq<Str>, seen: set<Str>, c: Str)
    requires files != []
    requires ChildOf(prefix, files[0]).None? || ChildOf(prefix, files[0]).value.name in seen
    ensures ListFrom(prefix, files, seen) == ListFrom(prefix, files[1..], seen)
  {
  }

  /** Whether `c` is in a listing with kind `k`. */
  ghost predicate Lists(entries: seq<DirEntry>, c: Str, k: NodeKind) {
    DirEntry(c, k) in entries
  }

  predicate Readable(x: Seam, dir: Str) {
    dir == [] || (dir !in x.metas && AnyUnder(x.files, dir))
  }

  function Listed(x: Seam, dir: Str): seq<DirEntry> {
    DOTS + ListFrom(Prefix(dir), x.files, {[DOT], [DOT, DOT]})
  }

  lemma ListingIsDistinct(x: Seam, dir: Str)
    ensures var l := Listed(x, dir); forall i, j :: 0 <= i < j < |l| ==> l[i].name != l[j].name
  {
    ListingSpec(Prefix(dir), x.files, {[DOT], [DOT, DOT]}, []);
    hide ListFrom;
    var tail := ListFrom(Prefix(dir), x.files, {[DOT], [DOT, DOT]});
    var l := Listed(x, dir);
    assert l == DOTS + tail;
    assert forall i :: 2 <= i < |l| ==> l[i] == tail[i - 2] && l[i] in tail;
  }

  /** In every readable directory a proper name is listed, once, exactly when its stat
      succeeds. */
  lemma ListedIffExists(x: Seam, dir: Str, c: Str)
    requires SeamOk(x) && Readable(x, dir) && ChildName(c)
    ensures var l := Listed(x, dir);
            && (forall i, j :: 0 <= i < j < |l| ==> l[i].name != l[j].name)
            && ((exists k :: Lists(l, c, k)) <==> ResolvePath(x, JoinChild(dir, c)).Ok?)
  {
    ListingIsDistinct(x, dir);
    var prefix, dots := Prefix(dir), {[DOT], [DOT, DOT]};
    ListingSpec(prefix, x.files, dots, c);
    hide ListFrom, ChildOf;
    var tail := ListFrom(prefix, x.files, dots);
    var path := JoinChild(dir, c);
    assert forall e :: e in Listed(x, dir) <==> e in DOTS || e in tail;
    if k :| Lists(Listed(x, dir), c, k) {
      assert DirEntry(c, k) in tail;
      var i :| 0 <= i < |x.files| && ChildOf(prefix, x.files[i]) == Some(DirEntry(c, k));
      ChildMeaning(prefix, x.files[i], c);
      assert x.files[i] in x.files;
      assert k == FileKind || k == DirKind;
      assert ResolvePath(x, path).Ok?;
    }
    if ResolvePath(x, path).Ok? {
      assert path != [];
      var i: nat;
      if path in x.metas {
        i :| 0 <= i < |x.files| && x.files[i] == path;
      } else {
        i :| 0 <= i < |x.files| && path + [SLASH] <= x.files[i];
      }
      ChildMeaning(prefix, x.files[i], c);
      assert Shows(prefix, x.files[i], c);
      var e :| e in tail && e.name == c;
      assert e == DirEntry(c, e.kind);
      assert Lists(Listed(x, dir), c, e.kind);
    }
  }

  /** With the same kind stat gives, when no file lies under another. */
  lemma ListedKindIsStat(x: Seam, dir: Str, c: Str, k: NodeKind)
    requires SeamOk(x) && Readable(x, dir) && ChildName(c) && PrefixFree(x.metas.Keys)
    requires Lists(Listed(x, dir), c, k)
    ensures ResolvePath(x, JoinChild(dir, c)).Ok? && ResolvePath(x, JoinChild(dir, c)).value.kind == k
  {
    var prefix, dots := Prefix(dir), {[DOT], [DOT, DOT]};
    ListingSpec(prefix, x.files, dots, c);
    hide ListFrom, ChildOf;
    var tail := ListFrom(prefix, x.files, dots);
    assert DirEntry(c, k) in tail;
    var i :| 0 <= i < |x.files| && ChildOf(prefix, x.files[i]) == Some(DirEntry(c, k));
    ChildMeaning(prefix, x.files[i], c);
    assert x.files[i] in x.files;
    assert JoinChild(dir, c) != [];
  }

  // ----- exactly when kinds agree -------------------------------------------------------

  /** A relative file path that ends in a proper name. */
  predicate GoodFile(p: Str) {
    p != [] && p[0] != SLASH && ChildName(SplitDir(p).1)
  }

  /** Whatever the order the files come in, every listing agrees with stat. */
  ghost predicate AlwaysAgrees(metas: map<Str, NodeMeta>) {
    forall x, dir, c, k ::
      SeamOk(x) && x.metas == metas && Readable(x, dir) && ChildName(c) && Lists(Listed(x, dir), c, k) ==>
        ResolvePath(x, JoinChild(dir, c)).Ok? && ResolvePath(x, JoinChild(dir, c)).value.kind == k
  }

  /** Kinds agree for every order exactly when no file lies under another. */
  lemma KindsAgreeIff(metas: map<Str, NodeMeta>)
    requires forall p :: p in metas ==> metas[p].kind == FileKind && GoodFile(p)
    ensures AlwaysAgrees(metas) <==> PrefixFree(metas.Keys)
  {
    if PrefixFree(metas.Keys) {
      forall x, dir, c, k | SeamOk(x) && x.metas == metas && Readable(x, dir) && ChildName(c) && Lists(Listed(x, dir), c, k)
        ensures ResolvePath(x, JoinChild(dir, c)).Ok? && ResolvePath(x, JoinChild(dir, c)).value.kind == k
      {
        ListedKindIsStat(x, dir, c, k);
      }
    } else {
      var p, q := TopmostClash(metas.Keys);
      ClashShows(metas, p, q);
    }
  }

  /** A file with another under it, and no file above. */
  lemma TopmostClash(files: set<Str>) returns (p: Str, q: Str)
    requires !PrefixFree(files)
    ensures p in files && q in files && p + [SLASH] <= q
    ensures forall r :: r in files ==> !(r + [SLASH] <= p)
  {
    p, q :| p in files && q in files && p + [SLASH] <= q;
    while exists r :: r in files && r + [SLASH] <= p
      invariant p in files && q in files && p + [SLASH] <= q
      decreases |p|
    {
      var r :| r in files && r + [SLASH] <= p;
      p, q := r, p;
    }
  }

  /** The directory a path is in, without its slash, and its name. */
  lemma ParentOf(p: Str) returns (dir: Str, c: Str)
    requires GoodFile(p)
    ensures p == JoinChild(dir, c) && ChildName(c)
    ensures dir != [] ==> dir + [SLASH] <= p
  {
    SplitsRejoin(p);
    hide SplitDir, RFind;
    var head := SplitDir(p).0;
    c := SplitDir(p).1;
    if head == [] {
      dir := [];
    } else {
      dir := head[..|head| - 1];
      assert head == dir + [SLASH];
      assert head[0] == p[0];
    }
  }

  lemma FirstFileDecides(prefix: Str, q: Str, rest: seq<Str>, c: Str)
    requires ChildName(c) && prefix + c + [SLASH] <= q
    ensures DirEntry(c, DirKind) in ListFrom(prefix, [q] + rest, {[DOT], [DOT, DOT]})
  {
    ChildMeaning(prefix, q, c);
    hide ChildOf;
    var l := ListFrom(prefix, [q] + rest, {[DOT], [DOT, DOT]});
    assert ([q] + rest)[1..] == rest;
    assert l[0] == DirEntry(c, DirKind);
  }

  /** Put the lower file first and the listing calls the upper one a directory. */
  lemma ClashShows(metas: map<Str, NodeMeta>, p: Str, q: Str)
    requires forall f :: f in metas ==> metas[f].kind == FileKind && GoodFile(f)
    requires p in metas && q in metas && p + [SLASH] <= q
    requires forall r :: r in metas ==> !(r + [SLASH] <= p)
    ensures !AlwaysAgrees(metas)
  {
    var rest := SomeOrder(metas.Keys - {q});
    assert q !in rest;
    var x := Seam([q] + rest, metas);
    assert SeamOk(x);
    var dir, c := ParentOf(p);
    FirstFileDecides(Prefix(dir), q, rest, c);
    LowerFirst(x, p, q, dir, c);
  }

  lemma LowerFirst(x: Seam, p: Str, q: Str, dir: Str, c: Str)
    requires SeamOk(x) && x.files != [] && x.files[0] == q && p in x.metas
    requires p + [SLASH] <= q && (dir != [] ==> dir + [SLASH] <= p && dir !in x.metas)
    requires p == JoinChild(dir, c) && ChildName(c)
    requires DirEntry(c, DirKind) in ListFrom(Prefix(dir), x.files, {[DOT], [DOT, DOT]})
    ensures !AlwaysAgrees(x.metas)
  {
    hide ListFrom, ChildName;
    assert dir != [] ==> dir + [SLASH] <= q;
    assert Readable(x, dir);
    assert Lists(Listed(x, dir), c, DirKind);
    assert ResolvePath(x, JoinChild(dir, c)).value.kind == FileKind;
  }

  // ----- where no file lies under another -----------------------------------------------

  /** A tree's index is such a set: a path is not both a file and a directory. */
  lemma IndexIsPrefixFree(s: Store, n: Node, index: PathIndex)
    requires IndexOf(s, n, index) && GoodNames(n)
    ensures PrefixFree(index.Keys)
  {
    forall p, q | p in index && q in index ensures !(p + [SLASH] <= q) {
      var pp :| FileAt(Some(n), pp).Some? && Render(pp) == p;
      var qq :| FileAt(Some(n), qq).Some? && Render(qq) == q;
      if p + [SLASH] <= q {
        RenderPrefix(pp, qq);
        assert qq == pp + qq[|pp|..];
        NodeAtAppend(Some(n), pp, qq[|pp|..]);
        BelowNonDir(NodeAt(Some(n), pp), qq[|pp|..]);
      }
    }
  }

  // ----- the overlay view ---------------------------------------------------------------

  /** An index seen through one agent's writes and deletions. */
  datatype OverlayView = OverlayView(index: PathIndex, written: map<Str, nat>, tombstoned: set<Str>)

  function IndexMeta(index: PathIndex, path: Str): Option<NodeMeta> {
    if path in index then Some(NodeMeta(FileKind, index[path].1, Some(index[path].0))) else None
  }

  /** `OverlayView::lookup`: deletions first, then writes, then the base. */
  function ViewLookup(v: OverlayView, path: Str): Option<NodeMeta> {
    if path in v.tombstoned then None
    else if path in v.written then Some(NodeMeta(FileKind, v.written[path], None))
    else IndexMeta(v.index, path)
  }

  /** `OverlayView::file_paths`: base files that are not deleted, then new ones. A path is
      listed, once, exactly when looking it up succeeds. */
  method ViewFilePaths(v: OverlayView) returns (paths: seq<Str>)
    ensures NoDup(paths)
    ensures forall p :: p in paths <==> ViewLookup(v, p).Some?
  {
    paths := [];
    var todo := v.index.Keys;
    while todo != {}
      invariant todo <= v.index.Keys && NoDup(paths)
      invariant forall p :: p in paths <==> p in v.index && p !in todo && p !in v.tombstoned
      decreases todo
    {
      var p :| p in todo;
      todo := todo - {p};
      if p !in v.tombstoned {
        paths := paths + [p];
      }
    }
    todo := v.written.Keys;
    while todo != {}
      invariant todo <= v.written.Keys && NoDup(paths)
      invariant forall p :: p in paths <==>
        p !in v.tombstoned && (p in v.index || (p in v.written && p !in todo))
      decreases todo
    {
      var p :| p in todo;
      todo := todo - {p};
      if p !in v.tombstoned && p !in v.index {
        paths := paths + [p];
      }
    }
  }

  /** The paths the view shows. */
  function ViewFiles(v: OverlayView): set<Str> {
    (v.index.Keys + v.written.Keys) - v.tombstoned
  }

  /** The agent keeps files and directories apart: a path it wrote (and did not delete) has
      nothing of the base above or below it that it left in place, and none of its own writes
      above it. */
  ghost predicate KeepsApart(v: OverlayView) {
    forall w :: w in v.written && w !in v.tombstoned ==>
      && (forall f :: f in v.index && (f + [SLASH] <= w || w + [SLASH] <= f) ==> f in v.tombstoned)
      && (forall w2 :: w2 in v.written && w2 + [SLASH] <= w ==> w2 in v.tombstoned)
  }

  /** Over the index of a tree the view is prefix-free exactly when the agent keeps files and
      directories apart; writing `a` over a base that holds `a/b` without deleting that is the
      plainest way not to. */
  lemma ViewIsPrefixFreeIff(v: OverlayView)
    requires PrefixFree(v.index.Keys)
    ensures PrefixFree(ViewFiles(v)) <==> KeepsApart(v)
  {
    var files := ViewFiles(v);
    if PrefixFree(files) {
      forall w | w in v.written && w !in v.tombstoned
        ensures forall f :: f in v.index && (f + [SLASH] <= w || w + [SLASH] <= f) ==> f in v.tombstoned
        ensures forall w2 :: w2 in v.written && w2 + [SLASH] <= w ==> w2 in v.tombstoned
      {
        assert w in files;
        forall f | f in v.index && (f + [SLASH] <= w || w + [SLASH] <= f) ensures f in v.tombstoned {
          assert f !in v.tombstoned ==> f in files;
        }
        forall f | f in v.written && f + [SLASH] <= w ensures f in v.tombstoned {
          assert f !in v.tombstoned ==> f in files;
        }
      }
    }
    if KeepsApart(v) {
      forall p, q | p in files && q in files ensures !(p + [SLASH] <= q) {
        assert p in v.index || p in v.written;
        assert q in v.index || q in v.written;
      }
    }
  }

  /** So in the view of a tree's index every listing agrees with stat, whatever order the hash
      maps give, exactly when the agent keeps files and directories apart. */
  lemma ViewKindsAgreeIff(s: Store, n: Node, v: OverlayView, metas: map<Str, NodeMeta>)
    requires IndexOf(s, n, v.index) && GoodNames(n)
    requires forall p :: ViewLookup(v, p) == if p in metas then Some(metas[p]) else None
    requires forall p :: p in metas ==> GoodFile(p)
    ensures AlwaysAgrees(metas) <==> KeepsApart(v)
  {
    hide AlwaysAgrees, GoodFile, IndexOf, GoodNames;
    IndexIsPrefixFree(s, n, v.index);
    ViewIsPrefixFreeIff(v);
    forall p ensures p in metas <==> p in ViewFiles(v) {
      assert ViewLookup(v, p) == if p in metas then Some(metas[p]) else None;
    }
    assert metas.Keys == ViewFiles(v);
    KindsAgreeIff(metas);
  }

  /** The view as the translation layer uses it. */
  method ViewSeam(v: OverlayView) returns (x: Seam)
    ensures SeamOk(x)
    ensures forall p :: ViewLookup(v, p) == if p in x.metas then Some(x.metas[p]) else None
    ensures x.metas.Keys == (v.index.Keys + v.written.Keys) - v.tombstoned
    ensures forall p :: p in x.metas && p in v.written ==> x.metas[p] == NodeMeta(FileKind, v.written[p], None)
    ensures forall p :: p in x.metas && p !in v.written ==> x.metas[p] == NodeMeta(FileKind, v.index[p].1, Some(v.index[p].0))
    ensures PrefixFree(v.index.Keys) ==> (PrefixFree(x.metas.Keys) <==> KeepsApart(v))
  {
    var files := ViewFilePaths(v);
    x := Seam(files, map p | p in files :: ViewLookup(v, p).value);
    assert x.metas.Keys == ViewFiles(v);
    if PrefixFree(v.index.Keys) { ViewIsPrefixFreeIff(v); }
  }
}

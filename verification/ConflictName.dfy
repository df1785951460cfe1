/** Dropbox-style names for conflict copies (src/merge.rs). */
module ConflictName {
  import opened Base
  import opened Text

  /** `str::rfind` of one ASCII character. */
  function RFind(s: Str, c: byte): (r: Option<nat>)
    ensures r.Some? ==> r.value < |s| && s[r.value] == c && c !in s[r.value + 1..]
    ensures r.None? <==> c !in s
  {
    if s == [] then None
    else if s[|s| - 1] == c then Some(|s| - 1)
    else
      assert s == s[..|s| - 1] + [s[|s| - 1]];
      RFind(s[..|s| - 1], c)
  }

  /** The directory part, with its slash, and the file name. */
  function SplitDir(path: Str): (Str, Str) {
    match RFind(path, SLASH)
    case Some(i) => (path[..i + 1], path[i + 1..])
    case None => ([], path)
  }

  /** The stem and the extension; a leading dot does not start an extension. */
  function SplitExt(name: Str): (Str, Str) {
    match RFind(name, DOT)
    case Some(i) => if i > 0 then (name[..i], name[i..]) else (name, [])
    case None => (name, [])
  }

  /** " (conflicted copy " */
  const MARK_OPEN: Str := [32, 40, 99, 111, 110, 102, 108, 105, 99, 116, 101, 100, 32, 99, 111, 112, 121, 32]
  const MARK_CLOSE: Str := [41]

  function Mark(suffix: Str): Str {
    MARK_OPEN + suffix + MARK_CLOSE
  }

  function ConflictCopyPath(path: Str, suffix: Str): Str {
    var (dir, name) := SplitDir(path);
    var (stem, ext) := SplitExt(name);
    dir + stem + Mark(suffix) + ext
  }

  /** The path a copy was made of: the one that gives this copy when the mark is taken out at
      some place from `k` on. */
  function OriginalFrom(copy: Str, suffix: Str, k: nat): Option<Str>
    decreases |copy| - k
  {
    var m := Mark(suffix);
    if |copy| < k + |m| then None
    else
      var path := copy[..k] + copy[k + |m|..];
      if ConflictCopyPath(path, suffix) == copy then Some(path) else OriginalFrom(copy, suffix, k + 1)
  }

  function OriginalOf(copy: Str, suffix: Str): Option<Str> {
    OriginalFrom(copy, suffix, 0)
  }

  /** The last occurrence is determined by any tail that holds one. */
  lemma RFindAt(s: Str, c: byte, i: nat)
    requires i < |s| && s[i] == c && c !in s[i + 1..]
    ensures RFind(s, c) == Some(i)
  {
    var j := RFind(s, c).value;
    assert forall k :: i < k < |s| ==> s[k] == s[i + 1..][k - i - 1];
    assert forall k :: j < k < |s| ==> s[k] == s[j + 1..][k - j - 1];
  }

  /** Splitting a path loses nothing. */
  lemma SplitsRejoin(path: Str)
    ensures var (dir, name) := SplitDir(path);
            path == dir + name && SLASH !in name && (dir == [] || dir[|dir| - 1] == SLASH)
  {
  }

  /** Nor does splitting a name. */
  lemma ExtRejoins(name: Str)
    ensures var (stem, ext) := SplitExt(name);
            name == stem + ext && (ext != [] ==> stem != [] && ext[0] == DOT && DOT !in ext[1..])
  {
  }

  lemma SplitDirOf(dir: Str, name: Str)
    requires dir == [] || dir[|dir| - 1] == SLASH
    requires SLASH !in name
    ensures SplitDir(dir + name) == (dir, name)
  {
    var path := dir + name;
    if dir != [] {
      assert path[|dir|..] == name;
      RFindAt(path, SLASH, |dir| - 1);
    } else {
      assert path == name;
    }
  }

  lemma SplitExtOf(stem: Str, ext: Str)
    requires stem == [] ==> ext == []
    requires if ext == [] then stem == [] || DOT !in stem[1..] else ext[0] == DOT && DOT !in ext[1..]
    ensures SplitExt(stem + ext) == (stem, ext)
  {
    var name := stem + ext;
    if ext != [] {
      assert name[|stem| + 1..] == ext[1..];
      RFindAt(name, DOT, |stem|);
      assert name[..|stem|] == stem && name[|stem|..] == ext;
    } else {
      assert name == stem;
      if DOT in name {
        TailHolds(name, 1);
        assert RFind(name, DOT) == Some(0);
      }
    }
  }

  lemma MarkIs(suffix: Str)
    ensures Mark(suffix) == Ascii(" (conflicted copy ") + suffix + Ascii(")")
  {
    assert MARK_OPEN == Ascii(" (conflicted copy ") && MARK_CLOSE == Ascii(")");
  }

  /** A directory part (nothing, or up to a slash), a stem and an extension (nothing, or a dot and
      no further dot). A dot that starts the name belongs to the stem. */
  predicate AreParts(dir: Str, stem: Str, ext: Str) {
    && (dir == [] || dir[|dir| - 1] == SLASH)
    && SLASH !in stem && SLASH !in ext
    && (stem == [] ==> ext == [])
    && if ext == [] then stem == [] || DOT !in stem[1..] else ext[0] == DOT && DOT !in ext[1..]
  }

  /** The name itself: the mark with its suffix stands between stem and extension. */
  lemma CopyNameIs(dir: Str, stem: Str, ext: Str, suffix: Str)
    requires AreParts(dir, stem, ext)
    ensures ConflictCopyPath(dir + stem + ext, suffix)
            == dir + stem + Ascii(" (conflicted copy ") + suffix + Ascii(")") + ext
  {
    hide SplitDir, SplitExt, Mark, Ascii;
    var name := stem + ext;
    assert dir + stem + ext == dir + name;
    assert forall x :: x in name ==> x in stem || x in ext;
    SplitDirOf(dir, name);
    SplitExtOf(stem, ext);
    MarkIs(suffix);
    assert dir + stem + (Ascii(" (conflicted copy ") + suffix + Ascii(")")) + ext
        == dir + stem + Ascii(" (conflicted copy ") + suffix + Ascii(")") + ext;
  }

  /** Every path is made of such parts. */
  lemma EveryPathHasParts(path: Str) returns (dir: Str, stem: Str, ext: Str)
    ensures path == dir + stem + ext && AreParts(dir, stem, ext)
  {
    dir := SplitDir(path).0;
    var name := SplitDir(path).1;
    stem, ext := SplitExt(name).0, SplitExt(name).1;
    SplitsRejoin(path);
    ExtRejoins(name);
    NoExtensionNoDot(name);
    hide SplitDir, SplitExt;
    assert forall x :: x in stem || x in ext ==> x in name;
    assert dir + (stem + ext) == dir + stem + ext;
    assert ext == [] ==> name == stem;
  }

  lemma NoExtensionNoDot(name: Str)
    ensures SplitExt(name).1 == [] && name != [] ==> DOT !in name[1..]
  {
    hide SplitExt;
    if name != [] && DOT in name[1..] {
      var i :| 0 <= i < |name[1..]| && name[1..][i] == DOT;
      DotInName(name, i + 1);
    }
  }

  /** Different suffixes give different copies. */
  lemma CopyTellsSuffix(path: Str, s: Str, t: Str)
    requires ConflictCopyPath(path, s) == ConflictCopyPath(path, t)
    ensures s == t
  {
    var dir, stem, ext := EveryPathHasParts(path);
    CopyNameIs(dir, stem, ext, s);
    CopyNameIs(dir, stem, ext, t);
    hide ConflictCopyPath, AreParts, Ascii;
    var front, close := dir + stem + Ascii(" (conflicted copy "), Ascii(")");
    Middle(front, s, close, ext);
    Middle(front, t, close, ext);
  }

  lemma Middle(front: Str, m: Str, close: Str, ext: Str)
    ensures var whole := front + m + close + ext; m == whole[|front|..|whole| - |ext| - |close|]
  {
  }

  // ----- one copy, one original ---------------------------------------------------------

  /** What repeats every `d` bytes up to its end has all its bytes in the last `d`. */
  lemma {:induction false} RepeatsToEnd(m: Str, d: nat, k: nat)
    requires 0 < d <= |m| && k < |m| && m[d..] == m[..|m| - d]
    ensures m[k] in m[|m| - d..]
    decreases |m| - k
  {
    if k < |m| - d {
      assert m[k] == m[..|m| - d][k] == m[d..][k] == m[k + d];
      RepeatsToEnd(m, d, k + d);
    } else {
      assert m[k] == m[|m| - d..][k - (|m| - d)];
    }
  }

  /** And in the first `d`. */
  lemma {:induction false} RepeatsFromStart(m: Str, d: nat, k: nat)
    requires 0 < d <= |m| && k < |m| && m[d..] == m[..|m| - d]
    ensures m[k] in m[..d]
    decreases k
  {
    if d <= k {
      assert m[k] == m[d..][k - d] == m[..|m| - d][k - d] == m[k - d];
      RepeatsFromStart(m, d, k - d);
    } else {
      assert m[k] == m[..d][k];
    }
  }

  function Extension(path: Str): Str {
    SplitExt(SplitDir(path).1).1
  }

  /** All of a path in front of its extension. */
  function Body(path: Str): Str {
    SplitDir(path).0 + SplitExt(SplitDir(path).1).0
  }

  lemma BodyAndExtension(path: Str, suffix: Str)
    ensures var a, e := Body(path), Extension(path);
            && path == a + e && ConflictCopyPath(path, suffix) == a + Mark(suffix) + e
            && (e != [] ==> e[0] == DOT && DOT !in e[1..] && SLASH !in e && a != [] && a[|a| - 1] != SLASH)
  {
    var (dir, name) := SplitDir(path);
    var (stem, ext) := SplitExt(name);
    SplitsRejoin(path);
    ExtRejoins(name);
    hide RFind, SplitDir, SplitExt, Mark;
    assert path == dir + (stem + ext) == (dir + stem) + ext;
    assert forall x :: x in ext || x in stem ==> x in name;
    assert stem != [] ==> (dir + stem)[|dir + stem| - 1] == stem[|stem| - 1];
  }

  lemma TailHolds(s: Str, i: nat)
    requires i <= |s|
    ensures forall j :: i <= j < |s| ==> s[j] in s[i..]
  {
    forall j | i <= j < |s| ensures s[j] in s[i..] {
      assert s[j] == s[i..][j - i];
    }
  }

  lemma DotInName(name: Str, j: nat)
    requires 0 < j < |name| && name[j] == DOT
    ensures SplitExt(name).1 != []
  {
    TailHolds(name, RFind(name, DOT).value + 1);
  }

  /** A dot past the first byte of its name starts an extension, or a later one does. */
  lemma DotMeansExtension(path: Str, k: nat)
    requires 0 < k < |path| && path[k] == DOT && SLASH !in path[k - 1..]
    ensures Extension(path) != []
  {
    var (dir, name) := SplitDir(path);
    SplitsRejoin(path);
    hide RFind, SplitExt, SplitDir;
    TailHolds(path, k - 1);
    assert dir != [] ==> path[|dir| - 1] == SLASH;
    DotInName(name, k - |dir|);
  }

  lemma PlainTail(ext: Str, tail: Str)
    requires |tail| < |ext| && DOT !in ext[1..] && tail == ext[|ext| - |tail|..]
    requires tail != [] ==> tail[0] == DOT
    ensures tail == []
  {
    TailHolds(ext, 1);
  }

  lemma DotInFirstPeriod(m: Str, d: nat) returns (k: nat)
    requires 0 < d <= |m| && m[d..] == m[..|m| - d]
    requires m[|m| - d] == DOT && SLASH !in m[|m| - d..]
    ensures k < d && m[k] == DOT && SLASH !in m[..d]
  {
    RepeatsFromStart(m, d, |m| - d);
    k :| 0 <= k < d && m[..d][k] == DOT;
    if SLASH in m[..d] {
      var i :| 0 <= i < d && m[..d][i] == SLASH;
      RepeatsToEnd(m, d, i);
    }
  }

  /** The mark's two places overlap or touch: then the mark repeats with a period in which it
      has the dot of the extension, and that dot is inside the other name. */
  lemma OverlapShowsExtension(a: Str, m: Str, ext: Str, q: Str)
    requires a != [] && a[|a| - 1] != SLASH
    requires 0 < |ext| <= |m| && ext[0] == DOT && SLASH !in ext
    requires a + m + ext == q + m
    ensures Extension(q) != []
  {
    hide Extension;
    var c, d := a + m + ext, |ext|;
    var n := |m| - d;
    assert |q| == |a| + d && q == c[..|q|] && m == c[|q|..];
    assert m == c[|a|..|a| + |m|];
    assert m[..n] == c[|q|..|a| + |m|] == m[d..];
    assert ext == c[|a| + |m|..] == m[n..];
    var head := m[..d];
    assert q == a + head;
    var k := DotInFirstPeriod(m, d);
    assert q[|a| - 1..] == [a[|a| - 1]] + head;
    assert q[|a| + k] == DOT && q[|a| + k - 1..] == q[|a| - 1..][k..];
    DotMeansExtension(q, |a| + k);
  }

  /** The longer extension reaches past the other copy's mark. */
  lemma ReachShowsExtension(a: Str, m: Str, ext: Str, q: Str)
    requires m != [] && m[|m| - 1] != SLASH
    requires |m| < |ext| && ext[0] == DOT && SLASH !in ext
    requires a + m + ext == q + m
    ensures Extension(q) != []
  {
    var c, k, n := a + m + ext, |a| + |m|, |ext| - |m|;
    assert |q| == |a| + |ext| && q == c[..|q|];
    assert q == a + m + ext[..n];
    assert q[k] == ext[0] && q[k - 1..] == [m[|m| - 1]] + ext[..n];
    DotMeansExtension(q, k);
  }

  lemma ExtensionNotLonger(p: Str, q: Str, suffix: Str)
    requires ConflictCopyPath(p, suffix) == ConflictCopyPath(q, suffix)
    ensures |Extension(p)| <= |Extension(q)|
  {
    BodyAndExtension(p, suffix);
    BodyAndExtension(q, suffix);
    hide Body, Extension, ConflictCopyPath;
    var m, c := Mark(suffix), ConflictCopyPath(p, suffix);
    var a, ep, eq := Body(p), Extension(p), Extension(q);
    if |eq| < |ep| {
      assert eq == c[|c| - |eq|..] == ep[|ep| - |eq|..];
      PlainTail(ep, eq);
      assert Body(q) + m + [] == q + m;
      if |ep| <= |m| { OverlapShowsExtension(a, m, ep, q); } else { ReachShowsExtension(a, m, ep, q); }
    }
  }

  /** Two paths never share a copy, whatever the suffix. */
  lemma CopyNameInjective(p: Str, q: Str, suffix: Str)
    requires ConflictCopyPath(p, suffix) == ConflictCopyPath(q, suffix)
    ensures p == q
  {
    hide ConflictCopyPath, Extension, Mark;
    ExtensionNotLonger(p, q, suffix);
    ExtensionNotLonger(q, p, suffix);
    MarkTakenOut(p, suffix);
    MarkTakenOut(q, suffix);
  }

  /** A path is its copy without the mark that stands in front of its extension. */
  lemma MarkTakenOut(path: Str, suffix: Str)
    ensures var c, m, e := ConflictCopyPath(path, suffix), |Mark(suffix)|, |Extension(path)|;
            && e + m <= |c|
            && path == c[..|c| - e - m] + c[|c| - e - m + m..]
  {
    BodyAndExtension(path, suffix);
    hide ConflictCopyPath, Body, Extension, Mark;
    TakeOut(Body(path), Mark(suffix), Extension(path));
  }

  lemma TakeOut(a: Str, m: Str, b: Str)
    ensures (a + m + b)[..|a|] == a && (a + m + b)[|a| + |m|..] == b
  {
  }

  lemma {:induction false} OriginalFound(path: Str, suffix: Str, k: nat, at: nat)
    requires var c, m := ConflictCopyPath(path, suffix), |Mark(suffix)|;
             k <= at && at + m <= |c| && c[..at] + c[at + m..] == path
    ensures OriginalFrom(ConflictCopyPath(path, suffix), suffix, k) == Some(path)
    decreases at - k
  {
    hide ConflictCopyPath;
    var c, m := ConflictCopyPath(path, suffix), |Mark(suffix)|;
    var found := c[..k] + c[k + m..];
    if ConflictCopyPath(found, suffix) == c {
      CopyNameInjective(found, path, suffix);
    } else {
      OriginalFound(path, suffix, k + 1, at);
    }
  }

  /** The copy's name tells the original's, whatever the suffix. */
  lemma CopyNameInvertible(path: Str, suffix: Str)
    ensures OriginalOf(ConflictCopyPath(path, suffix), suffix) == Some(path)
  {
    hide ConflictCopyPath, Extension, Mark, OriginalFrom;
    MarkTakenOut(path, suffix);
    var c := ConflictCopyPath(path, suffix);
    OriginalFound(path, suffix, 0, |c| - |Extension(path)| - |Mark(suffix)|);
  }

  /** A conflict copy is never its own original, whatever the suffix. */
  lemma CopyIsElsewhere(path: Str, suffix: Str)
    ensures |ConflictCopyPath(path, suffix)| > |path|
  {
    var (dir, name) := SplitDir(path);
    var (stem, ext) := SplitExt(name);
    assert |dir| + |name| == |path| && |stem| + |ext| == |name|;
  }
}

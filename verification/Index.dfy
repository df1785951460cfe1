/** The path index of a snapshot (src/index.rs): an explicit-stack walk of the tree that binds
    every file path, written with slashes, to the file's blob hash and byte length. */
module Index {
  import opened Base
  import opened TreeCodec
  import opened Merkle
  import Text
  import Utf8

  datatype IndexError = TooDeep | TreeBlobMissing(h: Hash) | FileBlobMissing(fh: Hash) | BadTree(e: TreeError)

  type PathIndex = map<Str, (Hash, nat)>

  const MAX_ITERS: nat := 65536

  // ----- slash-joined paths -------------------------------------------------------------

  /** `full_path` of an entry: the prefix is only written when it is not empty. */
  function JoinName(prefix: Str, name: Name): Str {
    if prefix == [] then name else prefix + [SLASH] + name
  }

  function Render(p: Path): Str {
    if p == [] then [] else JoinName(Render(p[..|p| - 1]), p[|p| - 1])
  }

  predicate GoodName(name: Name) {
    name != [] && SLASH !in name
  }

  predicate GoodPath(p: Path) {
    forall name :: name in p ==> GoodName(name)
  }

  ghost predicate GoodNames(n: Node) {
    forall p :: NodeAt(Some(n), p).Some? ==> GoodPath(p)
  }

  lemma RenderSnoc(p: Path, name: Name)
    ensures Render(p + [name]) == JoinName(Render(p), name)
  {
    assert (p + [name])[..|p|] == p;
  }

  lemma {:induction false} RenderNonEmpty(p: Path)
    requires GoodPath(p)
    ensures Render(p) == [] <==> p == []
  {
    if p != [] { assert p[|p| - 1] in p; }
  }

  /** A path's names with a slash between each two. */
  function Slashed(p: Path): Str {
    if p == [] then [] else if |p| == 1 then p[0] else p[0] + Text.Ascii("/") + Slashed(p[1..])
  }

  lemma {:induction false} SlashedSnoc(p: Path, name: Name)
    requires p != []
    ensures Slashed(p + [name]) == Slashed(p) + Text.Ascii("/") + name
  {
    var q := p + [name];
    assert q[1..] == p[1..] + [name];
    var slash := Text.Ascii("/");
    if |p| == 1 {
      assert q[1..] == [name];
    } else {
      SlashedSnoc(p[1..], name);
      hide Text.Ascii;
      assert p[0] + slash + (Slashed(p[1..]) + slash + name) == p[0] + slash + Slashed(p[1..]) + slash + name;
    }
  }

  /** A path of proper names is its names with slashes between them. */
  lemma {:induction false} RenderIsSlashed(p: Path)
    requires GoodPath(p)
    ensures Render(p) == Slashed(p)
  {
    if p != [] {
      var init, last := p[..|p| - 1], p[|p| - 1];
      assert p == init + [last];
      assert GoodPath(init) by { forall z | z in init ensures z in p {} }
      RenderIsSlashed(init);
      RenderNonEmpty(init);
      assert Text.Ascii("/") == [SLASH];
      if init != [] { SlashedSnoc(init, last); }
    }
  }

  /** The text after the last slash is unique. */
  lemma LastSegmentUnique(a: Str, x: Name, b: Str, y: Name)
    requires SLASH !in x && SLASH !in y
    requires a + [SLASH] + x == b + [SLASH] + y
    ensures a == b && x == y
  {
    var s, t := a + [SLASH] + x, b + [SLASH] + y;
    assert s[|a|] == SLASH && forall k :: |a| < k < |s| ==> s[k] == x[k - |a| - 1];
    assert t[|b|] == SLASH && forall k :: |b| < k < |t| ==> t[k] == y[k - |b| - 1];
    assert |a| == |b|;
    assert a == s[..|a|] == t[..|b|] == b;
    assert x == s[|a| + 1..] && y == t[|b| + 1..];
  }

  /** Distinct paths of proper names are distinct strings. */
  lemma {:induction false} RenderInjective(p: Path, q: Path)
    requires GoodPath(p) && GoodPath(q) && Render(p) == Render(q)
    ensures p == q
  {
    RenderNonEmpty(p);
    RenderNonEmpty(q);
    if p != [] && q != [] {
      var p', q', x, y := p[..|p| - 1], q[..|q| - 1], p[|p| - 1], q[|q| - 1];
      assert x in p && y in q;
      assert GoodPath(p') by { forall z | z in p' ensures z in p {} }
      assert GoodPath(q') by { forall z | z in q' ensures z in q {} }
      assert p == p' + [x] && q == q' + [y];
      RenderNonEmpty(p');
      RenderNonEmpty(q');
      assert p' != [] ==> Render(p)[|Render(p')|] == SLASH;
      assert q' != [] ==> Render(q)[|Render(q')|] == SLASH;
      if p' != [] && q' != [] {
        LastSegmentUnique(Render(p'), x, Render(q'), y);
        RenderInjective(p', q');
      }
    }
  }

  /** The last slash of a path's text stands before its last name. */
  lemma LastSlash(q: Path, i: nat)
    requires GoodPath(q) && i < |Render(q)| && Render(q)[i] == SLASH
    ensures |q| > 1 && GoodPath(q[..|q| - 1]) && i <= |Render(q[..|q| - 1])|
    ensures Render(q) == Render(q[..|q| - 1]) + [SLASH] + q[|q| - 1]
  {
    var q', y := q[..|q| - 1], q[|q| - 1];
    assert y in q;
    assert GoodPath(q') by { forall z | z in q' ensures z in q {} }
    RenderNonEmpty(q');
    var head, t := Render(q'), Render(q);
    assert forall j :: 0 <= j < |y| ==> y[j] in y && y[j] != SLASH;
    assert t == JoinName(head, y);
    assert q' != [] ==> t == head + [SLASH] + y && forall j :: |head| < j < |t| ==> t[j] == y[j - |head| - 1];
  }

  /** A path's text followed by a slash starts only the texts of paths below it. */
  lemma {:induction false} RenderPrefix(p: Path, q: Path)
    requires GoodPath(p) && GoodPath(q) && Render(p) + [SLASH] <= Render(q)
    ensures StrictlyUnder(p, q)
    decreases |q|
  {
    hide GoodPath, Render;
    var a, t := Render(p), Render(q);
    assert t[|a|] == SLASH;
    LastSlash(q, |a|);
    var q' := q[..|q| - 1];
    var head := Render(q');
    if |a| == |head| {
      assert a == t[..|a|] == head;
      RenderInjective(p, q');
    } else {
      assert a + [SLASH] == t[..|a| + 1] == head[..|a| + 1];
      RenderPrefix(p, q');
      assert q[..|p|] == q'[..|p|];
    }
  }

  // ----- the walk -----------------------------------------------------------------------

  /** What the index must be: exactly the file paths of the tree, each bound to its blob hash
      and that blob's true length. */
  ghost predicate IndexOf(s: Store, n: Node, m: PathIndex) {
    && (forall p :: FileAt(Some(n), p).Some? ==>
          var h := FileAt(Some(n), p).value;
          h in s && Render(p) in m && m[Render(p)] == (h, |s[h]|))
    && (forall k :: k in m ==> exists p :: FileAt(Some(n), p).Some? && Render(p) == k)
  }

  datatype Frame = Frame(hash: Hash, prefix: Str)

  /** The stack item at hand: a directory of the tree, with its path. */
  ghost predicate Placed(n: Node, f: Frame, at: Path) {
    && f.prefix == Render(at)
    && NodeAt(Some(n), at).Some? && NodeAt(Some(n), at).value.Dir?
    && NodeAt(Some(n), at).value.hash == f.hash
  }

  /** The walk so far: paths already bound, paths still on the stack (`ats` are the stack's
      paths), and paths below the entries of the current directory still to be read. */
  ghost predicate Walked(s: Store, n: Node, stack: seq<Frame>, ats: seq<Path>, m: PathIndex, at: Path, todo: set<Name>) {
    && |ats| == |stack|
    && (forall i :: 0 <= i < |stack| ==> Placed(n, stack[i], ats[i]))
    && (forall k :: k in m ==> exists p :: FileAt(Some(n), p).Some? && Render(p) == k)
    && (forall p :: FileAt(Some(n), p).Some? && Render(p) in m ==>
          var h := FileAt(Some(n), p).value; h in s && m[Render(p)] == (h, |s[h]|))
    && (forall p :: FileAt(Some(n), p).Some? && Render(p) !in m ==>
          Within(at, todo, p) || exists i :: 0 <= i < |ats| && StrictlyUnder(ats[i], p))
  }

  /** Directories still to be popped. */
  ghost function Pending(n: Node, ats: seq<Path>): nat {
    if ats == [] then 0
    else (var m := NodeAt(Some(n), ats[|ats| - 1]); if m.Some? then DirCount(m.value) else 0)
         + Pending(n, ats[..|ats| - 1])
  }

  /** A stack item is a stored directory; the files below it lie under its entries. */
  lemma PlacedUnfolds(s: Store, n: Node, f: Frame, at: Path)
    requires Unfolds(s, true, n.hash, n) && Placed(n, f, at)
    ensures Unfolds(s, true, f.hash, NodeAt(Some(n), at).value)
    ensures forall p :: FileAt(Some(n), p).Some? && StrictlyUnder(at, p) ==>
              p[|at|] in NodeAt(Some(n), at).value.kids
  {
    UnfoldsAt(s, true, n.hash, n, at);
    var d := NodeAt(Some(n), at).value;
    forall p | FileAt(Some(n), p).Some? && StrictlyUnder(at, p) ensures p[|at|] in d.kids {
      assert p == at + p[|at|..];
      NodeAtAppend(Some(n), at, p[|at|..]);
      NodeAtNone(p[|at|..][1..]);
    }
  }

  /** Taking a directory off the stack turns its paths into entries to read. */
  lemma PopKeepsWalk(s: Store, n: Node, stack: seq<Frame>, ats: seq<Path>, m: PathIndex)
    requires stack != [] && Walked(s, n, stack, ats, m, [], {})
    requires Unfolds(s, true, n.hash, n)
    ensures |ats| == |stack|
    ensures var k := |stack| - 1;
            Placed(n, stack[k], ats[k]) && Unfolds(s, true, stack[k].hash, NodeAt(Some(n), ats[k]).value)
    ensures var k := |stack| - 1;
            Walked(s, n, stack[..k], ats[..k], m, ats[k], NodeAt(Some(n), ats[k]).value.kids.Keys)
    ensures var k := |stack| - 1; var d := NodeAt(Some(n), ats[k]).value;
            Pending(n, ats) == 1 + DirsOf(d, d.kids.Keys) + Pending(n, ats[..k])
  {
    hide Unfolds;
    var k := |stack| - 1;
    var at := ats[k];
    PlacedUnfolds(s, n, stack[k], at);
    var names := NodeAt(Some(n), at).value.kids.Keys;
    forall p | FileAt(Some(n), p).Some? && Render(p) !in m
      ensures Within(at, names, p) || exists i :: 0 <= i < k && StrictlyUnder(ats[..k][i], p)
    {
      var i :| 0 <= i < |ats| && StrictlyUnder(ats[i], p);
      assert i < k ==> ats[..k][i] == ats[i];
    }
  }

  /** A directory entry moves from the entries to read to the stack. */
  lemma PushKeepsWalk(s: Store, n: Node, stack: seq<Frame>, ats: seq<Path>, m: PathIndex, at: Path,
                      todo: set<Name>, f: Frame, name: Name)
    requires Walked(s, n, stack, ats, m, at, todo) && name in todo
    requires Placed(n, f, at + [name])
    ensures Walked(s, n, stack + [f], ats + [at + [name]], m, at, todo - {name})
  {
    hide NodeAt, Render, JoinName, Kid;
    var ats' := ats + [at + [name]];
    forall p | FileAt(Some(n), p).Some? && Render(p) !in m
      ensures Within(at, todo - {name}, p) || exists i :: 0 <= i < |ats'| && StrictlyUnder(ats'[i], p)
    {
      if i :| 0 <= i < |ats| && StrictlyUnder(ats[i], p) {
        assert ats'[i] == ats[i];
      } else if p[|at|] == name {
        assert p[..|at| + 1] == at + [name];
        assert p != at + [name];
        assert StrictlyUnder(ats'[|ats|], p);
      }
    }
  }

  lemma StartWalk(s: Store, n: Node)
    requires Unfolds(s, true, n.hash, n)
    ensures Walked(s, n, [Frame(n.hash, [])], [[]], map[], [], {})
    ensures Pending(n, [[]]) == DirCount(n)
  {
    var ats: seq<Path> := [[]];
    assert ats[..0] == [] && Pending(n, []) == 0;
    forall p | FileAt(Some(n), p).Some?
      ensures exists i :: 0 <= i < |ats| && StrictlyUnder(ats[i], p)
    {
      assert p != [];
      assert StrictlyUnder(ats[0], p);
    }
  }

  /** With every entry of the directory read, its path no longer matters; with the stack
      empty too, the walk is finished. */
  lemma FinishWalk(s: Store, n: Node, stack: seq<Frame>, ats: seq<Path>, m: PathIndex, at: Path)
    requires Walked(s, n, stack, ats, m, at, {})
    ensures Walked(s, n, stack, ats, m, [], {})
    ensures stack == [] ==> IndexOf(s, n, m) && Pending(n, ats) == 0
  {
  }

  lemma NoneOwed(d: Node)
    requires d.Dir?
    ensures DirsOf(d, {}) == 0
  {
  }

  /** A file entry is bound. */
  lemma BindKeepsWalk(s: Store, n: Node, stack: seq<Frame>, ats: seq<Path>, m: PathIndex, at: Path,
                      todo: set<Name>, name: Name, h: Hash)
    requires Walked(s, n, stack, ats, m, at, todo) && name in todo
    requires GoodNames(n) && h in s && FileAt(Some(n), at + [name]) == Some(h)
    ensures Walked(s, n, stack, ats, m[Render(at + [name]) := (h, |s[h]|)], at, todo - {name})
  {
    var q := at + [name];
    var m' := m[Render(q) := (h, |s[h]|)];
    forall p | FileAt(Some(n), p).Some? && Render(p) in m'
      ensures FileAt(Some(n), p).value in s
      ensures m'[Render(p)] == (FileAt(Some(n), p).value, |s[FileAt(Some(n), p).value]|)
    {
      if Render(p) == Render(q) { RenderInjective(p, q); }
    }
    forall p | FileAt(Some(n), p).Some? && Render(p) !in m'
      ensures Within(at, todo - {name}, p) || exists i :: 0 <= i < |ats| && StrictlyUnder(ats[i], p)
    {
      if Within(at, todo, p) && p[|at|] == name {
        assert p == q + p[|at| + 1..];
        NodeAtAppend(Some(n), q, p[|at| + 1..]);
        assert |p| == |at| + 1 ==> p == q;
        NodeAtNone(p[|at| + 1..][1..]);
      }
    }
  }

  /** One entry of the current directory: a directory is pushed, a file is bound, and the
      directories still to be popped stay accounted for. */
  lemma ReadEntry(s: Store, n: Node, stack: seq<Frame>, ats: seq<Path>, m: PathIndex, at: Path,
                  d: Node, es: seq<Entry>, i: nat)
    requires GoodNames(n) && NodeAt(Some(n), at) == Some(d)
    requires d.Dir? && Unfolds(s, true, d.hash, d) && Decode(s[d.hash]) == Ok(es) && i < |es|
    requires Walked(s, n, stack, ats, m, at, Names(es[i..]))
    ensures Names(es[i + 1..]) <= Names(es[i..]) <= d.kids.Keys
    ensures
      var e, rest := es[i], Names(es[i + 1..]);
      var full := JoinName(Render(at), e.name);
      var owed := Pending(n, ats) + DirsOf(d, Names(es[i..]));
      if IsDir(e) then
        var ats' := ats + [at + [e.name]];
        && Walked(s, n, stack + [Frame(e.hash, full)], ats', m, at, rest)
        && Pending(n, ats') + DirsOf(d, rest) == owed
      else
        && e.hash in s
        && Walked(s, n, stack, ats, m[full := (e.hash, |s[e.hash]|)], at, rest)
        && Pending(n, ats) + DirsOf(d, rest) == owed
  {
    hide Walked, GoodNames;
    var e := es[i];
    KidOfEntry(s, d, i);
    NodeAtSnoc(Some(n), at, e.name);
    RenderSnoc(at, e.name);
    NamesTake(es, i);
    DirsOfTake(d, Names(es[i..]), e.name);
    var q := at + [e.name];
    assert (ats + [q])[..|ats|] == ats;
    if IsDir(e) {
      PushKeepsWalk(s, n, stack, ats, m, at, Names(es[i..]), Frame(e.hash, Render(q)), e.name);
    } else {
      BindKeepsWalk(s, n, stack, ats, m, at, Names(es[i..]), e.name, e.hash);
    }
  }

  // ----- the walk over any store --------------------------------------------------------

  ghost predicate Readable(s: Store, h: Hash) {
    h in s && Decode(s[h]).Ok?
  }

  /** Exactly the first `i` entries of a directory have been pushed or bound. */
  ghost predicate Accounted(s: Store, f: Frame, es: seq<Entry>, i: nat, stackIn: seq<Frame>, mIn: PathIndex,
                            stack: seq<Frame>, m: PathIndex)
    requires i <= |es|
  {
    && stackIn <= stack && mIn.Keys <= m.Keys
    && (forall k: nat :: k < i && IsDir(es[k]) ==> Child(f, es[k]) in stack)
    && (forall k: nat :: k < i && !IsDir(es[k]) ==> es[k].hash in s && JoinName(f.prefix, es[k].name) in m)
    && (forall g :: g in stack && g !in stackIn ==>
          exists k: nat :: k < i && IsDir(es[k]) && g == Child(f, es[k]))
    && (forall p :: p in m ==>
          || (p in mIn && m[p] == mIn[p])
          || exists k: nat :: k < i && Binds(s, f, es[k], p, m[p]))
  }

  ghost predicate Binds(s: Store, f: Frame, e: Entry, p: Str, v: (Hash, nat)) {
    !IsDir(e) && e.hash in s && p == JoinName(f.prefix, e.name) && v == (e.hash, |s[e.hash]|)
  }

  lemma NothingRead(s: Store, f: Frame, es: seq<Entry>, stack: seq<Frame>, m: PathIndex)
    ensures Accounted(s, f, es, 0, stack, m, stack, m)
  {
  }

  lemma AccountedOne(s: Store, f: Frame, es: seq<Entry>, i: nat, stackIn: seq<Frame>, mIn: PathIndex,
                     stack: seq<Frame>, m: PathIndex)
    requires i < |es| && Accounted(s, f, es, i, stackIn, mIn, stack, m)
    ensures var e := es[i]; var full := JoinName(f.prefix, e.name);
            if IsDir(e) then Accounted(s, f, es, i + 1, stackIn, mIn, stack + [Child(f, e)], m)
            else e.hash in s ==> Accounted(s, f, es, i + 1, stackIn, mIn, stack, m[full := (e.hash, |s[e.hash]|)])
  {
    hide JoinName, IsDir;
    var e, full := es[i], JoinName(f.prefix, es[i].name);
    if !IsDir(e) && e.hash in s {
      var m' := m[full := (e.hash, |s[e.hash]|)];
      assert Binds(s, f, es[i], full, m'[full]);
    }
  }

  ghost predicate Lists(s: Store, f: Frame, e: Entry) {
    Readable(s, f.hash) && e in Decode(s[f.hash]).value
  }

  function Child(f: Frame, e: Entry): Frame {
    Frame(e.hash, JoinName(f.prefix, e.name))
  }

  /** Everything the taken directories list is there. */
  ghost predicate Forth(s: Store, start: Frame, turns: seq<Frame>, stack: seq<Frame>, m: PathIndex) {
    && (start in turns || start in stack)
    && (forall f :: f in turns ==> Readable(s, f.hash))
    && (forall f, e :: f in turns && Lists(s, f, e) && IsDir(e) ==> Child(f, e) in turns || Child(f, e) in stack)
    && (forall f, e :: f in turns && Lists(s, f, e) && !IsDir(e) ==> e.hash in s && JoinName(f.prefix, e.name) in m)
  }

  /** And nothing else. */
  ghost predicate Back(s: Store, start: Frame, turns: seq<Frame>, stack: seq<Frame>, m: PathIndex) {
    && (forall g :: (g in turns || g in stack) && g != start ==> exists f, e :: f in turns && Lists(s, f, e) && IsDir(e) && g == Child(f, e))
    && (forall p :: p in m ==> exists f, e :: f in turns && Lists(s, f, e) && Binds(s, f, e, p, m[p]))
  }

  /** Where a walk over any store stands: every directory taken was readable and all its entries
      are on the stack or bound; nothing else is. */
  ghost predicate Surveyed(s: Store, start: Frame, turns: seq<Frame>, stack: seq<Frame>, m: PathIndex) {
    Forth(s, start, turns, stack, m) && Back(s, start, turns, stack, m)
  }

  lemma SurveyStarts(s: Store, start: Frame)
    ensures Surveyed(s, start, [], [start], map[])
  {
  }

  lemma SurveyedOne(s: Store, start: Frame, turns: seq<Frame>, stackIn: seq<Frame>, mIn: PathIndex, es: seq<Entry>,
                    stack: seq<Frame>, m: PathIndex)
    requires stackIn != [] && Surveyed(s, start, turns, stackIn, mIn)
    requires var f := stackIn[|stackIn| - 1];
             && f.hash in s && Decode(s[f.hash]) == Ok(es)
             && Accounted(s, f, es, |es|, stackIn[..|stackIn| - 1], mIn, stack, m)
    ensures Surveyed(s, start, turns + [stackIn[|stackIn| - 1]], stack, m)
  {
    hide JoinName, IsDir, DecodeRest, Binds, Readable, Lists, Child, Forth, Back, Accounted;
    TopReadable(s, stackIn[|stackIn| - 1], es);
    SurveyedForth(s, start, turns, stackIn, mIn, es, stack, m);
    SurveyedBack(s, start, turns, stackIn, mIn, es, stack, m);
  }

  lemma TopReadable(s: Store, f: Frame, es: seq<Entry>)
    requires f.hash in s && Decode(s[f.hash]) == Ok(es)
    ensures Readable(s, f.hash) && forall e :: Lists(s, f, e) <==> e in es
  {
    hide DecodeRest;
  }

  lemma SurveyedForth(s: Store, start: Frame, turns: seq<Frame>, stackIn: seq<Frame>, mIn: PathIndex, es: seq<Entry>,
                      stack: seq<Frame>, m: PathIndex)
    requires stackIn != [] && Forth(s, start, turns, stackIn, mIn)
    requires var f := stackIn[|stackIn| - 1];
             && Readable(s, f.hash) && (forall e :: Lists(s, f, e) <==> e in es)
             && Accounted(s, f, es, |es|, stackIn[..|stackIn| - 1], mIn, stack, m)
    ensures Forth(s, start, turns + [stackIn[|stackIn| - 1]], stack, m)
  {
    hide JoinName, IsDir, Binds, Readable, Lists, Child;
    var top, below := stackIn[|stackIn| - 1], stackIn[..|stackIn| - 1];
    var taken := turns + [top];
    assert stackIn == below + [top] && top in taken;
    assert forall g :: g in stackIn ==> g in taken || g in stack;
    forall f, e | f in taken && Lists(s, f, e)
      ensures if IsDir(e) then Child(f, e) in taken || Child(f, e) in stack else e.hash in s && JoinName(f.prefix, e.name) in m
    {
      if f !in turns {
        var k: nat :| k < |es| && es[k] == e;
      }
    }
  }

  lemma SurveyedBack(s: Store, start: Frame, turns: seq<Frame>, stackIn: seq<Frame>, mIn: PathIndex, es: seq<Entry>,
                     stack: seq<Frame>, m: PathIndex)
    requires stackIn != [] && Back(s, start, turns, stackIn, mIn)
    requires var f := stackIn[|stackIn| - 1];
             && Readable(s, f.hash) && (forall e :: Lists(s, f, e) <==> e in es)
             && Accounted(s, f, es, |es|, stackIn[..|stackIn| - 1], mIn, stack, m)
    ensures Back(s, start, turns + [stackIn[|stackIn| - 1]], stack, m)
  {
    hide JoinName, IsDir, Binds, Readable, Lists, Child;
    var top, below := stackIn[|stackIn| - 1], stackIn[..|stackIn| - 1];
    var taken := turns + [top];
    assert stackIn == below + [top] && top in taken;
    forall g | (g in taken || g in stack) && g != start
      ensures exists f, e :: f in taken && Lists(s, f, e) && IsDir(e) && g == Child(f, e)
    {
      if g in turns || g in stackIn {
        var f, e :| f in turns && Lists(s, f, e) && IsDir(e) && g == Child(f, e);
        assert f in taken;
      } else {
        var k: nat :| k < |es| && IsDir(es[k]) && g == Child(top, es[k]);
        assert es[k] in es;
      }
    }
    forall p | p in m ensures exists f, e :: f in taken && Lists(s, f, e) && Binds(s, f, e, p, m[p]) {
      if p in mIn && m[p] == mIn[p] {
        var f, e :| f in turns && Lists(s, f, e) && Binds(s, f, e, p, mIn[p]);
        assert f in taken;
      } else {
        var k: nat :| k < |es| && Binds(s, top, es[k], p, m[p]);
        assert es[k] in es;
      }
    }
  }

  /** Why a walk fails at the directory on top of its stack. */
  ghost predicate FrameFails(s: Store, f: Frame, e: IndexError) {
    match e
    case TooDeep => false
    case TreeBlobMissing(h) => h == f.hash && h !in s
    case BadTree(te) => f.hash in s && Decode(s[f.hash]) == Err(te)
    case FileBlobMissing(h) => Readable(s, f.hash) && h !in s && exists x :: x in Decode(s[f.hash]).value && !IsDir(x) && x.hash == h
  }

  /** `Index::build`. On a complete tree of proper names the only failure is the walk cap, met
      exactly when the unfolded tree has more than 65536 directories; otherwise the result is
      the flattened tree. Over any store the result accounts for all entries of all directories
      met, and a failure is the 65537th directory or that of the one on top. */
  method Build(s: Store, root: Hash)
    returns (r: Result<PathIndex, IndexError>, ghost turns: seq<Frame>, ghost left: seq<Frame>, ghost seen: PathIndex)
    ensures Surveyed(s, Frame(root, []), turns, left, seen) && |turns| <= 65536
    ensures match r
            case Ok(m) => seen == m && left == []
            case Err(e) => left != [] && if e.TooDeep? then |turns| == 65536 else FrameFails(s, left[|left| - 1], e)
    ensures Complete(s, root) && GoodNames(TreeOf(s, root)) ==>
              if DirCount(TreeOf(s, root)) <= 65536
              then r.Ok? && IndexOf(s, TreeOf(s, root), r.value)
              else r == Err(TooDeep)
  {
    hide Walked, IndexOf, Utf8.Valid, Unfolds, GoodNames, DecodeRest, NodeAt, Render, JoinName, DirsOf, Pending, Surveyed, Accounted;
    var m: PathIndex := map[];
    var stack := [Frame(root, [])];
    var iters := 0;
    ghost var start := stack[0];
    turns := [];
    SurveyStarts(s, start);

    ghost var ok := Complete(s, root) && GoodNames(TreeOf(s, root));
    ghost var n := if ok then TreeOf(s, root) else File(root);
    ghost var ats: seq<Path> := [[]];
    if ok {
      StartWalk(s, n);
    }

    while stack != []
      invariant iters <= MAX_ITERS
      invariant Surveyed(s, start, turns, stack, m) && |turns| == iters
      invariant ok ==> Walked(s, n, stack, ats, m, [], {})
      invariant ok ==> iters + Pending(n, ats) == DirCount(n)
      decreases MAX_ITERS - iters
    {
      var frame := stack[|stack| - 1];
      if ok {
        PopKeepsWalk(s, n, stack, ats, m);
      }
      ghost var at: Path := if ok then ats[|stack| - 1] else [];
      ghost var d := if ok then NodeAt(Some(n), at).value else n;
      iters := iters + 1;
      if iters > MAX_ITERS {
        return Err(TooDeep), turns, stack, m;
      }
      if ok {
        UnfoldsDir(s, d);
      }
      if frame.hash !in s {
        return Err(TreeBlobMissing(frame.hash)), turns, stack, m;
      }
      var decoded := DeserializeTree(s[frame.hash]);
      if decoded.Err? {
        return Err(BadTree(decoded.error)), turns, stack, m;
      }
      var entries := decoded.value;
      ghost var stackIn, mIn := stack, m;
      stack := stack[..|stack| - 1];
      ghost var below := stack;
      NothingRead(s, frame, entries, stack, m);
      ats := if ok then ats[..|stack|] else ats;

      var i := 0;
      assert entries[0..] == entries;
      while i < |entries|
        invariant 0 <= i <= |entries|
        invariant Accounted(s, frame, entries, i, below, mIn, stack, m)
        invariant ok ==> Walked(s, n, stack, ats, m, at, Names(entries[i..]))
        invariant ok ==> Names(entries[i..]) <= d.kids.Keys
        invariant ok ==> iters + Pending(n, ats) + DirsOf(d, Names(entries[i..])) == DirCount(n)
      {
        var e := entries[i];
        var fullPath := JoinName(frame.prefix, e.name);
        if ok {
          ReadEntry(s, n, stack, ats, m, at, d, entries, i);
        }
        AccountedOne(s, frame, entries, i, below, mIn, stack, m);
        if IsDir(e) {
          stack := stack + [Frame(e.hash, fullPath)];
          ats := if ok then ats + [at + [e.name]] else ats;
        } else {
          if e.hash !in s {
            return Err(FileBlobMissing(e.hash)), turns, stackIn, mIn;
          }
          m := m[fullPath := (e.hash, |s[e.hash]|)];
        }
        i := i + 1;
      }
      SurveyedOne(s, start, turns, stackIn, mIn, entries, stack, m);
      turns := turns + [frame];
      if ok {
        assert Names(entries[i..]) == {};
        FinishWalk(s, n, stack, ats, m, at);
        NoneOwed(d);
      }
    }
    if ok {
      FinishWalk(s, n, stack, ats, m, []);
    }
    return Ok(m), turns, [], m;
  }
}

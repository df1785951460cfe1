/** What a root hash means: the tree of files a blob store holds under it.

    The code of src/index.rs, src/patch.rs and src/sync.rs walks hashes with an explicit
    stack. `Node` is the same tree fully unfolded, so each walk can be compared with a plain
    recursion. A path is the sequence of its names. */
module Merkle {
  import opened Base
  import opened TreeCodec

  type Store = map<Hash, Bytes>
  type Name = Str
  type Path = seq<Name>

  datatype Node = File(hash: Hash) | Dir(hash: Hash, kids: map<Name, Node>)

  predicate IsDir(e: Entry) {
    e.mode == MODE_DIR
  }

  /** The directory mode, in the octal digits of a Unix mode: 040000. */
  lemma DirectoryMode(e: Entry)
    ensures IsDir(e) <==> e.mode == 4 * 8 * 8 * 8 * 8
  {
  }

  function Names(es: seq<Entry>): set<Name> {
    set i | 0 <= i < |es| :: es[i].name
  }

  lemma NamesTake(es: seq<Entry>, i: nat)
    requires DistinctNames(es) && i < |es|
    ensures es[i].name in Names(es[i..])
    ensures Names(es[i..]) - {es[i].name} == Names(es[i + 1..])
  {
    var tail, rest := es[i..], es[i + 1..];
    assert tail[0] == es[i] && forall j :: 0 <= j < |rest| ==> rest[j] == tail[j + 1] == es[i + 1 + j];
    forall x ensures x in Names(tail) && x != es[i].name <==> x in Names(rest) {
      if x in Names(rest) {
        var j :| 0 <= j < |rest| && rest[j].name == x;
        assert tail[j + 1].name == x;
      }
      if x in Names(tail) && x != es[i].name {
        var j :| 0 <= j < |tail| && tail[j].name == x;
        assert rest[j - 1].name == x;
      }
    }
  }

  /** `n` is the node that hash `h` stands for in `s`, read as a directory or as a file: every
      blob below is stored, every directory decodes, and no directory lists a name twice. */
  ghost predicate Unfolds(s: Store, isDir: bool, h: Hash, n: Node)
    decreases n
  {
    && n.hash == h && h in s
    && match n
       case File(_) => !isDir
       case Dir(_, kids) =>
         && isDir
         && Decode(s[h]).Ok?
         && var es := Decode(s[h]).value;
            && DistinctNames(es)
            && kids.Keys == Names(es)
            && (forall i :: 0 <= i < |es| ==>
                  es[i].name in kids && Unfolds(s, IsDir(es[i]), es[i].hash, kids[es[i].name]))
  }

  ghost predicate Complete(s: Store, root: Hash) {
    exists n :: Unfolds(s, true, root, n)
  }

  ghost function TreeOf(s: Store, root: Hash): (n: Node)
    requires Complete(s, root)
    ensures n.hash == root && Unfolds(s, true, root, n)
  {
    var n :| Unfolds(s, true, root, n); n
  }

  lemma UnfoldsDir(s: Store, n: Node)
    requires Unfolds(s, true, n.hash, n)
    ensures n.Dir? && n.hash in s && Decode(s[n.hash]).Ok?
    ensures n.kids.Keys == Names(Decode(s[n.hash]).value) && DistinctNames(Decode(s[n.hash]).value)
  {
  }

  /** A directory entry's place in the node its directory unfolds to. */
  lemma KidOfEntry(s: Store, n: Node, i: nat)
    requires n.Dir? && Unfolds(s, true, n.hash, n) && i < |Decode(s[n.hash]).value|
    ensures var e := Decode(s[n.hash]).value[i];
            e.name in n.kids && Unfolds(s, IsDir(e), e.hash, n.kids[e.name])
  {
  }

  lemma EntryOfKid(s: Store, n: Node, name: Name) returns (i: nat)
    requires n.Dir? && Unfolds(s, true, n.hash, n) && name in n.kids
    ensures i < |Decode(s[n.hash]).value| && Decode(s[n.hash]).value[i].name == name
  {
    var es := Decode(s[n.hash]).value;
    assert name in Names(es);
    i :| 0 <= i < |es| && es[i].name == name;
  }

  /** A hash means one node only: equal hashes of the same kind are equal trees. */
  lemma {:induction false} UnfoldsUnique(s: Store, isDir: bool, h: Hash, a: Node, b: Node)
    requires Unfolds(s, isDir, h, a) && Unfolds(s, isDir, h, b)
    ensures a == b
    decreases a
  {
    if a.Dir? {
      forall name | name in a.kids ensures a.kids[name] == b.kids[name] {
        var i := EntryOfKid(s, a, name);
        KidOfEntry(s, a, i);
        KidOfEntry(s, b, i);
        var e := Decode(s[h]).value[i];
        UnfoldsUnique(s, IsDir(e), e.hash, a.kids[name], b.kids[name]);
      }
      assert a.kids == b.kids;
    }
  }

  // ----- looking up one path ------------------------------------------------------------

  function Kid(n: Option<Node>, name: Name): Option<Node> {
    if n.Some? && n.value.Dir? && name in n.value.kids then Some(n.value.kids[name]) else None
  }

  /** The node at a path. */
  function NodeAt(n: Option<Node>, p: Path): Option<Node>
    decreases |p|
  {
    if p == [] then n else NodeAt(Kid(n, p[0]), p[1..])
  }

  function FileHash(n: Option<Node>): Option<Hash> {
    if n.Some? && n.value.File? then Some(n.value.hash) else None
  }

  /** The content hash of the file at a path, if there is a file. */
  function FileAt(n: Option<Node>, p: Path): Option<Hash> {
    FileHash(NodeAt(n, p))
  }

  lemma {:induction false} NodeAtNone(p: Path)
    ensures NodeAt(None, p) == None
  {
    if p != [] { NodeAtNone(p[1..]); }
  }

  lemma {:induction false} NodeAtAppend(n: Option<Node>, p: Path, q: Path)
    ensures NodeAt(n, p + q) == NodeAt(NodeAt(n, p), q)
    decreases |p|
  {
    if p == [] {
      assert p + q == q;
    } else {
      assert (p + q)[1..] == p[1..] + q;
      NodeAtAppend(Kid(n, p[0]), p[1..], q);
    }
  }

  lemma NodeAtSnoc(n: Option<Node>, p: Path, name: Name)
    ensures NodeAt(n, p + [name]) == Kid(NodeAt(n, p), name)
  {
    NodeAtAppend(n, p, [name]);
    assert [name][1..] == [];
  }

  /** Only a directory has anything strictly below it. */
  lemma BelowNonDir(n: Option<Node>, p: Path)
    requires !(n.Some? && n.value.Dir?) && p != []
    ensures NodeAt(n, p) == None
  {
    NodeAtNone(p[1..]);
  }

  /** Everything below a node of a complete tree is itself unfolded from the store. */
  lemma {:induction false} UnfoldsAt(s: Store, isDir: bool, h: Hash, n: Node, p: Path)
    requires Unfolds(s, isDir, h, n)
    ensures var m := NodeAt(Some(n), p); m.Some? ==> Unfolds(s, m.value.Dir?, m.value.hash, m.value)
    decreases |p|
  {
    if p != [] {
      if n.Dir? && p[0] in n.kids {
        var i := EntryOfKid(s, n, p[0]);
        KidOfEntry(s, n, i);
        var e := Decode(s[h]).value[i];
        UnfoldsAt(s, IsDir(e), e.hash, n.kids[p[0]], p[1..]);
      } else {
        NodeAtNone(p[1..]);
      }
    }
  }

  /** Some name of `names` below `at` leads to `p`. */
  predicate Within(at: Path, names: set<Name>, p: Path) {
    StrictlyUnder(at, p) && p[|at|] in names
  }

  // ----- the whole flattened map --------------------------------------------------------

  ghost function FlatPaths(n: Node): set<Path> {
    match n
    case File(_) => {[]}
    case Dir(_, kids) => set k, q | k in kids && q in FlatPaths(kids[k]) :: [k] + q
  }

  lemma {:induction false} FlatPathsAreFiles(n: Node, p: Path)
    ensures p in FlatPaths(n) <==> FileAt(Some(n), p).Some?
    decreases |p|
  {
    if n.Dir? {
      if p != [] && p[0] in n.kids {
        FlatPathsAreFiles(n.kids[p[0]], p[1..]);
        assert p == [p[0]] + p[1..];
        if p in FlatPaths(n) {
          var k, q :| k in n.kids && q in FlatPaths(n.kids[k]) && p == [k] + q;
          assert k == p[0] && q == p[1..];
        }
      } else if p != [] {
        NodeAtNone(p[1..]);
      }
    } else if p != [] {
      NodeAtNone(p[1..]);
    }
  }

  /** All files of a tree: path to content hash. */
  ghost function Flatten(n: Node): (m: map<Path, Hash>)
    ensures forall p :: p in m <==> FileAt(Some(n), p).Some?
    ensures forall p :: p in m ==> Some(m[p]) == FileAt(Some(n), p)
  {
    forall p {
      FlatPathsAreFiles(n, p);
    }
    map p | p in FlatPaths(n) :: FileAt(Some(n), p).value
  }

  // ----- unfolded size ------------------------------------------------------------------

  /** Number of directories in the unfolded tree: the number of stack items a full walk pops. */
  ghost function DirCount(n: Node): nat
    decreases n, 1
  {
    match n
    case File(_) => 0
    case Dir(_, kids) => 1 + DirsOf(n, kids.Keys)
  }

  /** Directories under the children with the given names. */
  ghost function DirsOf(n: Node, names: set<Name>): nat
    requires n.Dir? && names <= n.kids.Keys
    decreases n, 0, |names|
  {
    if names == {} then 0
    else var k :| k in names; DirCount(n.kids[k]) + DirsOf(n, names - {k})
  }

  /** The sum over names does not depend on the order they are taken in. */
  lemma {:induction false} DirsOfTake(n: Node, names: set<Name>, k: Name)
    requires n.Dir? && names <= n.kids.Keys && k in names
    ensures DirsOf(n, names) == DirCount(n.kids[k]) + DirsOf(n, names - {k})
    decreases |names|
  {
    var j :| j in names && DirsOf(n, names) == DirCount(n.kids[j]) + DirsOf(n, names - {j});
    if j != k {
      DirsOfTake(n, names - {j}, k);
      DirsOfTake(n, names - {k}, j);
      assert names - {j} - {k} == names - {k} - {j};
    }
  }
}

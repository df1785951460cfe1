/** Three-way merge of flat snapshots with keep-both conflict copies (src/merge.rs). */
module Merge {
  import opened Base
  import opened ConflictName

  datatype FileState = Present(content: Bytes) | Deleted

  type Snapshot = map<Str, FileState>

  /** The two snapshots to merge, what both started from, and the conflict suffix. */
  datatype Inputs = Inputs(base: Snapshot, winner: Snapshot, local: Snapshot, suffix: Str)

  datatype MergeAction = TakeWinner | TakeLocal | Unchanged | ConflictCopy(copyPath: Str)

  datatype PathOutcome = PathOutcome(path: Str, action: MergeAction)

  datatype MergeResult = MergeResult(merged: Snapshot, outcomes: seq<PathOutcome>, conflicts: seq<Str>)

  type Write = (Str, FileState)

  function StateAt(s: Snapshot, p: Str): FileState {
    if p in s then s[p] else Deleted
  }

  function AllPaths(i: Inputs): set<Str> {
    i.base.Keys + i.winner.Keys + i.local.Keys
  }

  predicate WinnerChanged(i: Inputs, p: Str) {
    StateAt(i.winner, p) != StateAt(i.base, p)
  }

  predicate LocalChanged(i: Inputs, p: Str) {
    StateAt(i.local, p) != StateAt(i.base, p)
  }

  /** Both sides changed the path, differently, and the local content must be kept aside. */
  predicate Conflicts(i: Inputs, p: Str) {
    WinnerChanged(i, p) && LocalChanged(i, p) && StateAt(i.winner, p) != StateAt(i.local, p) && StateAt(i.local, p).Present?
  }

  function Keep(p: Str, s: FileState): seq<Write> {
    if s.Deleted? then [] else [(p, s)]
  }

  /** The inserts the loop body makes for one path, and the action it records. */
  function Effect(i: Inputs, p: Str): (seq<Write>, MergeAction) {
    var win, loc := StateAt(i.winner, p), StateAt(i.local, p);
    if !WinnerChanged(i, p) && !LocalChanged(i, p) then (Keep(p, win), Unchanged)
    else if !LocalChanged(i, p) then (Keep(p, win), TakeWinner)
    else if !WinnerChanged(i, p) then (Keep(p, loc), TakeLocal)
    else if win == loc || loc.Deleted? then (Keep(p, win), TakeWinner)
    else
      var copy := ConflictCopyPath(p, i.suffix);
      (Keep(p, win) + [(copy, loc)], ConflictCopy(copy))
  }

  function Insert(m: Snapshot, ws: seq<Write>): Snapshot
    decreases |ws|
  {
    if ws == [] then m else Insert(m, ws[..|ws| - 1])[ws[|ws| - 1].0 := ws[|ws| - 1].1]
  }

  /** The merged snapshot when the paths are visited in the given order. */
  function MergeOver(i: Inputs, order: seq<Str>): Snapshot {
    if order == [] then map[]
    else Insert(MergeOver(i, order[..|order| - 1]), Effect(i, order[|order| - 1]).0)
  }

  function OutcomesOver(i: Inputs, order: seq<Str>): seq<PathOutcome> {
    if order == [] then []
    else OutcomesOver(i, order[..|order| - 1])
         + [PathOutcome(order[|order| - 1], Effect(i, order[|order| - 1]).1)]
  }

  function ConflictsOver(i: Inputs, order: seq<Str>): seq<Str> {
    if order == [] then []
    else ConflictsOver(i, order[..|order| - 1])
         + (if Conflicts(i, order[|order| - 1]) then [order[|order| - 1]] else [])
  }

  /** An iteration order of the set of all paths. */
  ghost predicate IsOrder(i: Inputs, order: seq<Str>) {
    NoDup(order) && forall p :: p in order <==> p in AllPaths(i)
  }

  // ----- the code -----------------------------------------------------------------------

  /** `apply_conflict` */
  method ApplyConflict(path: Str, win: FileState, loc: FileState, suffix: Str, merged: Snapshot, conflicts: seq<Str>)
    returns (action: MergeAction, merged': Snapshot, conflicts': seq<Str>)
    requires path != []
    ensures win == loc || loc.Deleted? ==>
              action == TakeWinner && merged' == Insert(merged, Keep(path, win)) && conflicts' == conflicts
    ensures win != loc && loc.Present? ==>
              var copy := ConflictCopyPath(path, suffix);
              && action == ConflictCopy(copy) && conflicts' == conflicts + [path]
              && merged' == Insert(merged, Keep(path, win) + [(copy, loc)])
  {
    merged', conflicts' := merged, conflicts;
    InsertOne(merged, path, win);
    if win == loc {
      if win != Deleted {
        merged' := merged'[path := win];
      }
      return TakeWinner, merged', conflicts';
    }
    match (win, loc) {
      case (Present(_), Deleted) =>
        merged' := merged'[path := win];
        return TakeWinner, merged', conflicts';
      case (Deleted, Present(content)) =>
        var copy := ConflictCopyPath(path, suffix);
        InsertOne(merged, copy, loc);
        assert Keep(path, win) + [(copy, loc)] == Keep(copy, loc);
        merged' := merged'[copy := Present(content)];
        conflicts' := conflicts' + [path];
        return ConflictCopy(copy), merged', conflicts';
      case (Present(_), Present(locContent)) =>
        merged' := merged'[path := win];
        var copy := ConflictCopyPath(path, suffix);
        InsertTwo(merged, (path, win), (copy, loc));
        merged' := merged'[copy := Present(locContent)];
        conflicts' := conflicts' + [path];
        return ConflictCopy(copy), merged', conflicts';
    }
  }

  lemma InsertOne(m: Snapshot, p: Str, s: FileState)
    ensures Insert(m, Keep(p, s)) == if s.Deleted? then m else m[p := s]
  {
    var ws := [(p, s)];
    assert ws[..0] == [];
    assert Insert(m, ws) == Insert(m, ws[..0])[p := s];
  }

  lemma InsertTwo(m: Snapshot, a: Write, b: Write)
    ensures Insert(m, [a] + [b]) == m[a.0 := a.1][b.0 := b.1]
  {
    var ws, one := [a] + [b], [a];
    assert ws[..1] == one && one[..0] == [];
    assert Insert(m, one) == Insert(m, one[..0])[a.0 := a.1];
    assert Insert(m, ws) == Insert(m, ws[..1])[b.0 := b.1];
  }

  lemma NothingVisited(i: Inputs)
    ensures MergeOver(i, []) == map[] && OutcomesOver(i, []) == [] && ConflictsOver(i, []) == []
  {
  }

  lemma VisitOneMore(i: Inputs, order: seq<Str>, p: Str)
    ensures MergeOver(i, order + [p]) == Insert(MergeOver(i, order), Effect(i, p).0)
    ensures OutcomesOver(i, order + [p]) == OutcomesOver(i, order) + [PathOutcome(p, Effect(i, p).1)]
    ensures ConflictsOver(i, order + [p]) == ConflictsOver(i, order) + (if Conflicts(i, p) then [p] else [])
    ensures ConflictsOver(i, order) + [] == ConflictsOver(i, order)
  {
    assert (order + [p])[..|order|] == order;
  }

  /** `merge_snapshots`, over whatever order the hash set of paths is visited in. */
  method MergeSnapshots(i: Inputs) returns (r: MergeResult, ghost order: seq<Str>)
    requires i.suffix != []
    requires forall p :: p in AllPaths(i) && WinnerChanged(i, p) && LocalChanged(i, p) ==> p != []
    ensures IsOrder(i, order)
    ensures r.merged == MergeOver(i, order)
    ensures r.outcomes == OutcomesOver(i, order)
    ensures r.conflicts == ConflictsOver(i, order)
  {
    hide MergeOver, OutcomesOver, ConflictsOver, ConflictCopyPath, Insert;
    NothingVisited(i);
    var allPaths := i.base.Keys + i.winner.Keys + i.local.Keys;
    var merged: Snapshot := map[];
    var outcomes: seq<PathOutcome> := [];
    var conflicts: seq<Str> := [];
    order := [];
    while allPaths != {}
      invariant allPaths <= AllPaths(i)
      invariant NoDup(order) && forall p :: p in order <==> p in AllPaths(i) - allPaths
      invariant merged == MergeOver(i, order)
      invariant outcomes == OutcomesOver(i, order)
      invariant conflicts == ConflictsOver(i, order)
      decreases allPaths
    {
      var path :| path in allPaths;
      allPaths := allPaths - {path};
      ghost var before := order;
      assert path !in before;
      VisitOneMore(i, order, path);
      order := order + [path];
      var baseS, winS, locS := StateAt(i.base, path), StateAt(i.winner, path), StateAt(i.local, path);
      var winnerChanged, localChanged := winS != baseS, locS != baseS;
      var action;
      InsertOne(merged, path, winS);
      InsertOne(merged, path, locS);
      if !winnerChanged && !localChanged {
        if winS != Deleted { merged := merged[path := winS]; }
        action := Unchanged;
      } else if winnerChanged && !localChanged {
        if winS != Deleted { merged := merged[path := winS]; }
        action := TakeWinner;
      } else if !winnerChanged && localChanged {
        if locS != Deleted { merged := merged[path := locS]; }
        action := TakeLocal;
      } else {
        action, merged, conflicts := ApplyConflict(path, winS, locS, i.suffix, merged, conflicts);
      }
      outcomes := outcomes + [PathOutcome(path, action)];
    }
    r := MergeResult(merged, outcomes, conflicts);
  }

  // ----- what a merge result holds ------------------------------------------------------

  ghost predicate Writes(i: Inputs, p: Str, w: Write) {
    p in AllPaths(i) && w in Effect(i, p).0
  }

  /** No two paths write different things to one place. Copies go where they land without a
      look at what is there, so this is what the merge relies on. */
  ghost predicate NoClobber(i: Inputs) {
    forall p, q, w, v :: Writes(i, p, w) && Writes(i, q, v) && w.0 == v.0 ==> w.1 == v.1
  }

  lemma EffectWritesOncePerPlace(i: Inputs, p: Str, w: Write, v: Write)
    requires w in Effect(i, p).0 && v in Effect(i, p).0 && w.0 == v.0
    ensures w == v
  {
    CopyIsElsewhere(p, i.suffix);
  }

  lemma {:induction false} InsertAt(m: Snapshot, ws: seq<Write>, x: Str)
    requires forall w, v :: w in ws && v in ws && w.0 == v.0 ==> w == v
    ensures forall w :: w in ws ==> w.0 in Insert(m, ws) && Insert(m, ws)[w.0] == w.1
    ensures (forall w :: w in ws ==> w.0 != x) ==>
              (x in Insert(m, ws) <==> x in m) && (x in m ==> Insert(m, ws)[x] == m[x])
    decreases |ws|
  {
    if ws != [] {
      var init, last := ws[..|ws| - 1], ws[|ws| - 1];
      assert ws == init + [last];
      InsertAt(m, init, x);
    }
  }

  /** Whatever the order, a place is filled iff some path writes there, and by such a write;
      the last path to write to a place decides. */
  lemma {:induction false} MergeOverAt(i: Inputs, order: seq<Str>, x: Str)
    requires forall p :: p in order ==> p in AllPaths(i)
    ensures x in MergeOver(i, order) ==> exists p :: p in order && Writes(i, p, (x, MergeOver(i, order)[x]))
    ensures forall p, v :: p in order && Writes(i, p, (x, v)) ==> x in MergeOver(i, order)
    ensures order != [] ==> forall v :: Writes(i, order[|order| - 1], (x, v)) ==>
              x in MergeOver(i, order) && MergeOver(i, order)[x] == v
  {
    if order != [] {
      var init, last := order[..|order| - 1], order[|order| - 1];
      assert order == init + [last];
      MergeOverAt(i, init, x);
      var before, ws := MergeOver(i, init), Effect(i, last).0;
      forall w, v | w in ws && v in ws && w.0 == v.0 ensures w == v {
        EffectWritesOncePerPlace(i, last, w, v);
      }
      InsertAt(before, ws, x);
      hide Effect;
      if w :| w in ws && w.0 == x {
        assert Writes(i, last, w) && w == (x, w.1);
      } else {
        forall p, v | p in order && Writes(i, p, (x, v)) ensures p in init {
          assert p == last ==> (x, v) in ws;
        }
      }
    }
  }

  /** An order that visits `p` last. */
  ghost function OrderEnding(i: Inputs, p: Str): (order: seq<Str>)
    requires p in AllPaths(i)
    ensures IsOrder(i, order) && order != [] && order[|order| - 1] == p
  {
    var rest := SomeOrder(AllPaths(i) - {p});
    assert p !in rest;
    rest + [p]
  }

  /** The merged snapshot is the same for every visiting order exactly when nothing clobbers. */
  lemma OrderIrrelevantIff(i: Inputs)
    ensures (forall a, b :: IsOrder(i, a) && IsOrder(i, b) ==> MergeOver(i, a) == MergeOver(i, b)) <==> NoClobber(i)
  {
    hide Effect;
    if NoClobber(i) {
      forall a, b | IsOrder(i, a) && IsOrder(i, b) ensures MergeOver(i, a) == MergeOver(i, b) {
        SameMerge(i, a, b);
      }
    } else {
      var p, q, w, v :| Writes(i, p, w) && Writes(i, q, v) && w.0 == v.0 && w.1 != v.1;
      var a, b := OrderEnding(i, p), OrderEnding(i, q);
      MergeOverAt(i, a, w.0);
      MergeOverAt(i, b, w.0);
      assert w == (w.0, w.1) && v == (w.0, v.1);
      assert MergeOver(i, a)[w.0] != MergeOver(i, b)[w.0];
    }
  }

  lemma SameMerge(i: Inputs, a: seq<Str>, b: seq<Str>)
    requires NoClobber(i) && IsOrder(i, a) && IsOrder(i, b)
    ensures MergeOver(i, a) == MergeOver(i, b)
  {
    hide Effect;
    var m, n := MergeOver(i, a), MergeOver(i, b);
    forall x ensures (x in m <==> x in n) && (x in m ==> m[x] == n[x]) {
      MergeOverAt(i, a, x);
      MergeOverAt(i, b, x);
    }
  }

  /** Under `NoClobber` every write of every path is in the result. */
  lemma EveryWriteSurvives(i: Inputs, order: seq<Str>, p: Str, w: Write)
    requires NoClobber(i) && IsOrder(i, order) && Writes(i, p, w)
    ensures w.0 in MergeOver(i, order) && MergeOver(i, order)[w.0] == w.1
  {
    hide Effect;
    MergeOverAt(i, order, w.0);
    assert w == (w.0, w.1);
  }

  /** Whatever the order, every write of every path is in the result exactly when nothing
      clobbers. */
  lemma EveryWriteSurvivesIff(i: Inputs, order: seq<Str>)
    requires IsOrder(i, order)
    ensures var m := MergeOver(i, order);
            (forall p, w :: Writes(i, p, w) ==> w.0 in m && m[w.0] == w.1) <==> NoClobber(i)
  {
    hide Writes, MergeOver;
    if NoClobber(i) {
      forall p, w | Writes(i, p, w) ensures w.0 in MergeOver(i, order) && MergeOver(i, order)[w.0] == w.1 {
        EveryWriteSurvives(i, order, p, w);
      }
    }
  }

  /** What either side newly wrote at a path is in the merge: the winner's content at the path,
      the local one there or at its copy; and what neither touched is still there. */
  predicate KeptAt(i: Inputs, m: Snapshot, p: Str) {
    && (WinnerChanged(i, p) && StateAt(i.winner, p).Present? ==> p in m && m[p] == i.winner[p])
    && (LocalChanged(i, p) && StateAt(i.local, p).Present? ==>
          var at := if Conflicts(i, p) then ConflictCopyPath(p, i.suffix) else p;
          at in m && m[at] == i.local[p])
    && (!WinnerChanged(i, p) && !LocalChanged(i, p) && StateAt(i.base, p).Present? ==> p in m && m[p] == i.base[p])
  }

  /** What is to be kept at a path is what the path writes. */
  lemma KeptIsWritten(i: Inputs, m: Snapshot, p: Str)
    ensures KeptAt(i, m, p) <==> forall w :: Writes(i, p, w) ==> w.0 in m && m[w.0] == w.1
  {
    hide ConflictCopyPath;
    var (ws, _) := Effect(i, p);
    if p in AllPaths(i) {
      assert forall w :: Writes(i, p, w) <==> w in ws;
      assert StateAt(i.winner, p).Present? && (WinnerChanged(i, p) || !LocalChanged(i, p)) ==> (p, i.winner[p]) in ws;
      assert StateAt(i.local, p).Present? && !WinnerChanged(i, p) ==> (p, i.local[p]) in ws;
      assert Conflicts(i, p) ==> (ConflictCopyPath(p, i.suffix), i.local[p]) in ws;
    }
  }

  /** Whatever the order, nothing either side newly wrote is lost exactly when nothing clobbers. */
  lemma NothingIsLostIff(i: Inputs, order: seq<Str>)
    requires IsOrder(i, order)
    ensures (forall p :: KeptAt(i, MergeOver(i, order), p)) <==> NoClobber(i)
  {
    hide MergeOver, KeptAt, Writes, NoClobber;
    var m := MergeOver(i, order);
    forall p ensures KeptAt(i, m, p) <==> forall w :: Writes(i, p, w) ==> w.0 in m && m[w.0] == w.1 {
      KeptIsWritten(i, m, p);
    }
    EveryWriteSurvivesIff(i, order);
    if forall p :: KeptAt(i, m, p) {
      forall p, w | Writes(i, p, w) ensures w.0 in m && m[w.0] == w.1 {
        assert KeptAt(i, m, p);
      }
    }
  }

  /** Nothing is invented, and deletions are honoured: every entry of the result is the content
      one side has at that path, or a conflict copy. */
  lemma NothingIsInvented(i: Inputs, order: seq<Str>, x: Str)
    requires IsOrder(i, order) && x in MergeOver(i, order)
    ensures var s := MergeOver(i, order)[x];
            && s.Present?
            && (|| (x in AllPaths(i) && s == StateAt(i.winner, x) && (WinnerChanged(i, x) || !LocalChanged(i, x)))
                || (x in AllPaths(i) && s == StateAt(i.local, x) && !WinnerChanged(i, x))
                || exists p :: p in AllPaths(i) && Conflicts(i, p) && x == ConflictCopyPath(p, i.suffix)
                               && s == StateAt(i.local, p))
  {
    MergeOverAt(i, order, x);
    hide MergeOver;
    var p :| p in order && Writes(i, p, (x, MergeOver(i, order)[x]));
    assert Conflicts(i, p) <==> Effect(i, p).1.ConflictCopy?;
  }

  /** Copies are fresh: no copy's name is already a path. */
  ghost predicate FreshCopies(i: Inputs) {
    forall p :: p in AllPaths(i) && Conflicts(i, p) ==> ConflictCopyPath(p, i.suffix) !in AllPaths(i)
  }

  /** What a caller can check before merging: fresh copy names are enough. */
  lemma FreshCopiesDoNotClobber(i: Inputs)
    requires FreshCopies(i)
    ensures NoClobber(i)
  {
    forall p, q, w, v | Writes(i, p, w) && Writes(i, q, v) && w.0 == v.0 ensures w.1 == v.1 {
      WriteShape(i, p, w);
      WriteShape(i, q, v);
      if w.0 != p && v.0 != q {
        CopyNameInjective(p, q, i.suffix);
        EffectWritesOncePerPlace(i, p, w, v);
      } else if p == q {
        EffectWritesOncePerPlace(i, p, w, v);
      }
    }
  }

  lemma WriteShape(i: Inputs, p: Str, w: Write)
    requires Writes(i, p, w)
    ensures w.0 == p || (Conflicts(i, p) && w.0 == ConflictCopyPath(p, i.suffix))
  {
  }

  lemma FreshCopiesKeep(i: Inputs, order: seq<Str>, p: Str)
    requires IsOrder(i, order) && FreshCopies(i)
    ensures KeptAt(i, MergeOver(i, order), p)
  {
    FreshCopiesDoNotClobber(i);
    NothingIsLostIff(i, order);
    hide KeptAt;
  }

  // ----- in plain terms -----------------------------------------------------------------

  /** The content a snapshot has at a path; an explicit deletion is no content. */
  function ContentAt(s: Snapshot, p: Str): Option<Bytes> {
    if p in s && s[p].Present? then Some(s[p].content) else None
  }

  /** What is recorded for each path, from the three contents there. */
  lemma {:induction false} OutcomesMean(i: Inputs, order: seq<Str>)
    ensures |OutcomesOver(i, order)| == |order|
    ensures forall k: nat :: k < |order| ==>
              var p, o := order[k], OutcomesOver(i, order)[k];
              var b, w, l := ContentAt(i.base, p), ContentAt(i.winner, p), ContentAt(i.local, p);
              && o.path == p
              && o.action == (if l == b then if w == b then Unchanged else TakeWinner
                              else if w == b then TakeLocal
                              else if w == l || l == None then TakeWinner
                              else ConflictCopy(ConflictCopyPath(p, i.suffix)))
    decreases |order|
  {
    hide ConflictCopyPath;
    if order != [] {
      OutcomesMean(i, order[..|order| - 1]);
    }
  }

  /** The conflicts are the paths of the recorded conflict copies, in their order. */
  lemma {:induction false} ConflictsMean(i: Inputs, order: seq<Str>)
    ensures ConflictsOver(i, order) == CopiedPaths(OutcomesOver(i, order))
    decreases |order|
  {
    hide ConflictCopyPath;
    if order != [] {
      var init, p := order[..|order| - 1], order[|order| - 1];
      assert order == init + [p];
      ConflictsMean(i, init);
      VisitOneMore(i, init, p);
      var os := OutcomesOver(i, init);
      assert (os + [PathOutcome(p, Effect(i, p).1)])[..|os|] == os;
    }
  }

  function CopiedPaths(os: seq<PathOutcome>): seq<Str> {
    if os == [] then [] else
      CopiedPaths(os[..|os| - 1]) + (if os[|os| - 1].action.ConflictCopy? then [os[|os| - 1].path] else [])
  }

  /** The whole merged snapshot, when the copies' names are not paths yet: a path has the winner's
      content if the winner changed it and the local one otherwise, the copy of a conflict has the
      local content, and nothing else is there. */
  lemma MergedContents(i: Inputs, order: seq<Str>, x: Str)
    requires IsOrder(i, order) && FreshCopies(i)
    ensures var b, w, l := ContentAt(i.base, x), ContentAt(i.winner, x), ContentAt(i.local, x);
            x in i.base.Keys + i.winner.Keys + i.local.Keys ==>
              ContentAt(MergeOver(i, order), x) == if w == b then l else w
    ensures var b, w, l := ContentAt(i.base, x), ContentAt(i.winner, x), ContentAt(i.local, x);
            w != b && l != b && w != l && l != None ==> ContentAt(MergeOver(i, order), ConflictCopyPath(x, i.suffix)) == l
    ensures ContentAt(MergeOver(i, order), x) != None && x !in i.base.Keys + i.winner.Keys + i.local.Keys ==>
              exists p ::
                var b, w, l := ContentAt(i.base, p), ContentAt(i.winner, p), ContentAt(i.local, p);
                x == ConflictCopyPath(p, i.suffix) && w != b && l != b && w != l && l != None
  {
    hide MergeOver, ConflictCopyPath, Effect, Writes, NoClobber;
    var m := MergeOver(i, order);
    FreshCopiesKeep(i, order, x);
    if x in m {
      NothingIsInvented(i, order, x);
    }
  }

  /** A snapshot without its explicit deletions. */
  function Compact(s: Snapshot): Snapshot {
    map p | p in s && s[p].Present? :: s[p]
  }

  /** When every path's effect is to keep one snapshot's state, the merge is that snapshot. */
  lemma MergeKeeping(i: Inputs, order: seq<Str>, s: Snapshot)
    requires IsOrder(i, order) && s.Keys <= AllPaths(i)
    requires forall p :: p in AllPaths(i) ==> Effect(i, p).0 == Keep(p, StateAt(s, p))
    ensures MergeOver(i, order) == Compact(s)
  {
    hide Effect;
    var m := MergeOver(i, order);
    forall x ensures (x in m <==> x in Compact(s)) && (x in m ==> m[x] == Compact(s)[x]) {
      MergeOverAt(i, order, x);
      if x in Compact(s) {
        assert Writes(i, x, (x, s[x]));
        assert x in order;
      }
      if x in m {
        var p :| p in order && Writes(i, p, (x, m[x]));
        assert p == x;
      }
    }
  }

  /** Merging with an unchanged side gives the other side, and merging a snapshot with itself
      gives that snapshot. */
  lemma MergeUnchangedSide(base: Snapshot, s: Snapshot, suffix: Str, order: seq<Str>)
    ensures IsOrder(Inputs(base, base, s, suffix), order) ==> MergeOver(Inputs(base, base, s, suffix), order) == Compact(s)
    ensures IsOrder(Inputs(base, s, base, suffix), order) ==> MergeOver(Inputs(base, s, base, suffix), order) == Compact(s)
    ensures IsOrder(Inputs(base, s, s, suffix), order) ==> MergeOver(Inputs(base, s, s, suffix), order) == Compact(s)
  {
    hide MergeOver, IsOrder, Compact, ConflictCopyPath;
    if IsOrder(Inputs(base, base, s, suffix), order) { MergeKeeping(Inputs(base, base, s, suffix), order, s); }
    if IsOrder(Inputs(base, s, base, suffix), order) { MergeKeeping(Inputs(base, s, base, suffix), order, s); }
    if IsOrder(Inputs(base, s, s, suffix), order) { MergeKeeping(Inputs(base, s, s, suffix), order, s); }
  }

  /** A clobber loses content: the winner has a file where the local conflict copy lands, and
      whatever the order only one of the two survives. */
  lemma OccupiedCopyNameLosesContent(i: Inputs, order: seq<Str>, p: Str)
    requires p in AllPaths(i) && Conflicts(i, p) && IsOrder(i, order)
    requires var copy := ConflictCopyPath(p, i.suffix);
             && Writes(i, copy, (copy, StateAt(i.winner, copy)))
             && StateAt(i.winner, copy) != StateAt(i.local, p)
    ensures var copy := ConflictCopyPath(p, i.suffix);
            && copy in MergeOver(i, order)
            && (MergeOver(i, order)[copy] != StateAt(i.winner, copy) || MergeOver(i, order)[copy] != StateAt(i.local, p))
            && !NoClobber(i)
  {
    var copy := ConflictCopyPath(p, i.suffix);
    assert (copy, StateAt(i.local, p)) in Effect(i, p).0;
    assert Writes(i, p, (copy, StateAt(i.local, p)));
    hide Effect;
    MergeOverAt(i, order, copy);
  }
}

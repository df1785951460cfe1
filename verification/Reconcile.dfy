/** The client-side reconcile loop (src/reconcile.rs) run by any number of writers at once
    against one compare-and-swap ref store (src/ref_advance.rs).

    A writer's atomic steps are: fetch the base, read the ref, fetch the winner and commit the
    merge, advance the ref. They interleave arbitrarily with each other and with outside
    clients that commit snapshots and advance refs. */
module Reconcile {
  import opened Base
  import opened Merge
  import opened RefStore
  import Text
  import Hex

  // ----- snapshot identifiers -----------------------------------------------------------

  /** `k` hexadecimal digits. */
  function HexPad(n: nat, k: nat): (s: Str)
    ensures |s| == k
  {
    if k == 0 then [] else HexPad(n / 16, k - 1) + [Hex.Digit(n % 16)]
  }

  function Power16(k: nat): nat {
    if k == 0 then 1 else 16 * Power16(k - 1)
  }

  /** "snap-" and the counter in 16 digits, which hold any 64-bit counter. */
  function SnapId(n: nat): (id: Str)
    ensures id != []
  {
    [115, 110, 97, 112, 45] + HexPad(n, 16)
  }

  lemma {:induction false} HexPadInjective(a: nat, b: nat, k: nat)
    requires a < Power16(k) && b < Power16(k) && HexPad(a, k) == HexPad(b, k)
    ensures a == b
  {
    if k > 0 {
      var x, y := HexPad(a / 16, k - 1), HexPad(b / 16, k - 1);
      assert HexPad(a, k)[..k - 1] == x && HexPad(b, k)[..k - 1] == y;
      assert HexPad(a, k)[k - 1] == HexPad(b, k)[k - 1];
      Hex.DigitInverse(a % 16, 0);
      Hex.DigitInverse(b % 16, 0);
      HexPadInjective(a / 16, b / 16, k - 1);
    }
  }

  /** Identifiers of different commits differ. */
  lemma SnapIdInjective(a: nat, b: nat)
    requires a < Power16(16) && b < Power16(16) && SnapId(a) == SnapId(b)
    ensures a == b
  {
    assert SnapId(a)[5..] == HexPad(a, 16) && SnapId(b)[5..] == HexPad(b, 16);
    HexPadInjective(a, b, 16);
  }

  /** The number that hexadecimal digits write, read from the right. */
  function HexNumber(s: Str): nat {
    if s == [] then 0
    else
      var v := Hex.DigitValue(s[|s| - 1]);
      16 * HexNumber(s[..|s| - 1]) + if v.Some? then v.value else 0
  }

  lemma {:induction false} HexPadIs(n: nat, k: nat)
    requires n < Power16(k)
    ensures HexNumber(HexPad(n, k)) == n
    ensures forall c :: c in HexPad(n, k) ==> 48 <= c <= 57 || 97 <= c <= 102
  {
    if k > 0 {
      HexPadIs(n / 16, k - 1);
      Hex.DigitInverse(n % 16, 0);
      var init, d := HexPad(n / 16, k - 1), Hex.Digit(n % 16);
      assert (init + [d])[..k - 1] == init && (init + [d])[k - 1] == d;
    }
  }

  /** An identifier in full: `snap-` and sixteen lower-case digits that write the counter. */
  lemma SnapIdIs(n: nat)
    requires n < 0x1_0000_0000_0000_0000
    ensures var id := SnapId(n);
            && |id| == 21 && id[..5] == Text.Ascii("snap-")
            && (forall c :: c in id[5..] ==> 48 <= c <= 57 || 97 <= c <= 102)
            && HexNumber(id[5..]) == n
  {
    SixteenDigits();
    HexPadIs(n, 16);
    assert SnapId(n)[5..] == HexPad(n, 16);
    assert [115, 110, 97, 112, 45] == Text.Ascii("snap-");
  }

  lemma SixteenDigits()
    ensures Power16(16) == 0x1_0000_0000_0000_0000
  {
    assert Power16(4) == 0x1_0000;
    assert Power16(8) == 0x1_0000 * Power16(4);
    assert Power16(12) == 0x1_0000 * Power16(8);
    assert Power16(16) == 0x1_0000 * Power16(12);
  }

  // ----- the snapshot store -------------------------------------------------------------

  type Snaps = map<Str, Snapshot>

  /** No identifier the counter still has to produce is taken. */
  ghost predicate FreshAfter(snaps: Snaps, counter: nat) {
    forall n :: counter < n < Power16(16) ==> SnapId(n) !in snaps
  }

  ghost predicate SnapsExtend(a: Snaps, b: Snaps) {
    forall r :: r in a ==> r in b && b[r] == a[r]
  }

  lemma CommitIsFresh(snaps: Snaps, counter: nat, s: Snapshot)
    requires FreshAfter(snaps, counter) && counter + 1 < Power16(16)
    ensures SnapId(counter + 1) !in snaps
    ensures FreshAfter(snaps[SnapId(counter + 1) := s], counter + 1)
    ensures SnapsExtend(snaps, snaps[SnapId(counter + 1) := s])
  {
    forall n | counter + 1 < n < Power16(16) ensures SnapId(n) != SnapId(counter + 1) {
      if SnapId(n) == SnapId(counter + 1) { SnapIdInjective(n, counter + 1); }
    }
  }

  /** `MemSnapshotStore`: an identifier resolves for good to the snapshot committed under it. */
  class MemSnapshotStore {
    var snaps: Snaps
    var counter: nat

    constructor ()
      ensures snaps == map[] && counter == 0 && FreshAfter(snaps, counter)
    {
      snaps, counter := map[], 0;
    }

    method Fetch(root: Str) returns (r: Option<Snapshot>)
      requires root != []
      ensures r == if root in snaps then Some(snaps[root]) else None
    {
      r := if root in snaps then Some(snaps[root]) else None;
    }

    method Commit(snapshot: Snapshot) returns (id: Str)
      requires FreshAfter(snaps, counter) && counter + 1 < Power16(16)
      modifies this
      ensures counter == old(counter) + 1 && id == SnapId(counter)
      ensures id !in old(snaps) && snaps == old(snaps)[id := snapshot]
      ensures FreshAfter(snaps, counter)
    {
      CommitIsFresh(snaps, counter, snapshot);
      counter := counter + 1;
      id := SnapId(counter);
      snaps := snaps[id := snapshot];
    }
  }

  // ----- the system of writers ----------------------------------------------------------

  datatype Failure = RefNotFound | SnapshotNotFound(root: Str) | MaxRetriesExceeded(attempts: nat)

  /** Where a writer stands between two atomic steps. */
  datatype Stage =
    | Idle
    | HasBase(base: Snapshot)
    | HasWinner(hbase: Snapshot, winner: Str)
    | HasMerged(mbase: Snapshot, mwinner: Str, merged: Str)
    | Done(value: Str)
    | Failed(failure: Failure)

  /** A reconcile call: its arguments, its stage, the retries it has used; and, for the proof,
      how long the event log was when it read the ref first and when it last learned its
      value. */
  datatype Writer = Writer(refName: Str, baseRoot: Str, local: Snapshot, suffix: Str, maxRetries: nat,
                           stage: Stage, used: nat, started: nat, learned: nat)

  /** A successful advance: what the ref held just before, and what it holds now. `made` says
      which writer made it and the root its merge was computed from. */
  datatype Event = Event(name: Str, replaced: Option<Str>, installed: Str, made: Option<(nat, Str)>)

  datatype System = System(refs: Refs, snaps: Snaps, counter: nat, writers: map<nat, Writer>, log: seq<Event>)

  datatype Action =
    | FetchBase(w: nat)
    | ReadRef(rw: nat)
    | MergeAndCommit(mw: nat, order: seq<Str>)
    | Advance(aw: nat)
    | OutsideCommit(s: Snapshot)
    | OutsideAdvance(name: Str, expected: Option<Str>, root: Str)

  function WithStage(sys: System, w: nat, stage: Stage): System
    requires w in sys.writers
  {
    sys.(writers := sys.writers[w := sys.writers[w].(stage := stage)])
  }

  function Commit(sys: System, s: Snapshot): System {
    sys.(counter := sys.counter + 1, snaps := sys.snaps[SnapId(sys.counter + 1) := s])
  }

  function Install(sys: System, name: Str, root: Str, made: Option<(nat, Str)>): System {
    var replaced := if name in sys.refs then Some(sys.refs[name]) else None;
    sys.(refs := sys.refs[name := root], log := sys.log + [Event(name, replaced, root, made)])
  }

  function StepFetchBase(sys: System, w: nat): System
    requires w in sys.writers
  {
    var wr := sys.writers[w];
    if !wr.stage.Idle? then sys
    else WithStage(sys, w, if wr.baseRoot in sys.snaps then HasBase(sys.snaps[wr.baseRoot])
                           else Failed(SnapshotNotFound(wr.baseRoot)))
  }

  function StepReadRef(sys: System, w: nat): System
    requires w in sys.writers
  {
    var wr := sys.writers[w];
    if !wr.stage.HasBase? then sys
    else if wr.refName !in sys.refs then WithStage(sys, w, Failed(RefNotFound))
    else sys.(writers := sys.writers[w := wr.(stage := HasWinner(wr.stage.base, sys.refs[wr.refName]),
                                              started := |sys.log|, learned := |sys.log|)])
  }

  ghost function StepMerge(sys: System, w: nat, order: seq<Str>): System
    requires w in sys.writers
  {
    var wr := sys.writers[w];
    if !wr.stage.HasWinner? then sys
    else if wr.stage.winner !in sys.snaps then WithStage(sys, w, Failed(SnapshotNotFound(wr.stage.winner)))
    else
      var i := Inputs(wr.stage.hbase, sys.snaps[wr.stage.winner], wr.local, wr.suffix);
      if !IsOrder(i, order) then sys
      else WithStage(Commit(sys, MergeOver(i, order)), w,
                     HasMerged(wr.stage.hbase, wr.stage.winner, SnapId(sys.counter + 1)))
  }

  function StepAdvance(sys: System, w: nat): System
    requires w in sys.writers
  {
    var wr := sys.writers[w];
    if !wr.stage.HasMerged? then sys
    else if MayAdvance(sys.refs, wr.refName, Some(wr.stage.mwinner)) then
      WithStage(Install(sys, wr.refName, wr.stage.merged, Some((w, wr.stage.mwinner))), w, Done(wr.stage.merged))
    else
      var next := if wr.used + 1 >= wr.maxRetries then Failed(MaxRetriesExceeded(wr.maxRetries))
                  else HasWinner(wr.stage.mbase, CurrentOf(sys.refs, wr.refName));
      sys.(writers := sys.writers[w := wr.(stage := next, used := wr.used + 1, learned := |sys.log|)])
  }

  /** One atomic step. A step that is not enabled changes nothing. Outside clients advance
      refs, by compare-and-swap, to roots that were committed. */
  ghost function Step(sys: System, a: Action): System {
    match a
    case FetchBase(w) => if w in sys.writers then StepFetchBase(sys, w) else sys
    case ReadRef(w) => if w in sys.writers then StepReadRef(sys, w) else sys
    case MergeAndCommit(w, order) => if w in sys.writers then StepMerge(sys, w, order) else sys
    case Advance(w) => if w in sys.writers then StepAdvance(sys, w) else sys
    case OutsideCommit(s) => Commit(sys, s)
    case OutsideAdvance(name, expected, root) =>
      if root in sys.snaps && MayAdvance(sys.refs, name, expected) then Install(sys, name, root, None) else sys
  }

  ghost function Run(sys: System, actions: seq<Action>): System {
    if actions == [] then sys else Step(Run(sys, actions[..|actions| - 1]), actions[|actions| - 1])
  }

  /** What each step of a writer does, from where it stands. Its advance succeeds exactly when the
      ref holds the winner it merged. */
  lemma WriterSteps(sys: System, w: nat, order: seq<Str>)
    requires w in sys.writers
    ensures sys.writers[w].stage.Idle? ==>
              var wr, after := sys.writers[w], Step(sys, FetchBase(w));
              && after.refs == sys.refs && after.snaps == sys.snaps
              && after.writers[w] == wr.(stage := if wr.baseRoot in sys.snaps then HasBase(sys.snaps[wr.baseRoot])
                                                  else Failed(SnapshotNotFound(wr.baseRoot)))
    ensures sys.writers[w].stage.HasBase? ==>
              var wr, after := sys.writers[w], Step(sys, ReadRef(w));
              && after.refs == sys.refs && after.snaps == sys.snaps
              && SameCall(after.writers[w], wr)
              && after.writers[w].stage == if wr.refName in sys.refs then HasWinner(wr.stage.base, sys.refs[wr.refName])
                                           else Failed(RefNotFound)
    ensures sys.writers[w].stage.HasWinner? && sys.writers[w].stage.winner in sys.snaps ==>
              var wr, after, merged := sys.writers[w], Step(sys, MergeAndCommit(w, order)), SnapId(sys.counter + 1);
              var i := Inputs(wr.stage.hbase, sys.snaps[wr.stage.winner], wr.local, wr.suffix);
              IsOrder(i, order) ==>
                && after.refs == sys.refs && after.snaps == sys.snaps[merged := MergeOver(i, order)]
                && after.writers[w] == wr.(stage := HasMerged(wr.stage.hbase, wr.stage.winner, merged))
    ensures sys.writers[w].stage.HasMerged? ==>
              var wr, after := sys.writers[w], Step(sys, Advance(w));
              var here := if wr.refName in sys.refs then Some(sys.refs[wr.refName]) else None;
              && after.snaps == sys.snaps
              && (here == Some(wr.stage.mwinner) ==>
                    after.refs == sys.refs[wr.refName := wr.stage.merged] && after.writers[w].stage == Done(wr.stage.merged))
              && (here != Some(wr.stage.mwinner) ==>
                    && after.refs == sys.refs && after.writers[w].used == wr.used + 1
                    && after.writers[w].stage == (if wr.used + 1 >= wr.maxRetries then Failed(MaxRetriesExceeded(wr.maxRetries))
                                                  else HasWinner(wr.stage.mbase, if here.Some? then here.value else [])))
  {
    hide SnapId, MergeOver, IsOrder;
  }

  /** A writer that nobody gets in the way of is done after its four steps: the ref then names the
      merge of its base, the snapshot the ref named before, and its own edits. */
  lemma AloneFinishes(sys: System, w: nat, order: seq<Str>)
    requires w in sys.writers && sys.writers[w].stage.Idle?
    requires var wr := sys.writers[w];
             && wr.baseRoot in sys.snaps && wr.refName in sys.refs && sys.refs[wr.refName] in sys.snaps
             && IsOrder(Inputs(sys.snaps[wr.baseRoot], sys.snaps[sys.refs[wr.refName]], wr.local, wr.suffix), order)
    ensures var wr := sys.writers[w];
            var i := Inputs(sys.snaps[wr.baseRoot], sys.snaps[sys.refs[wr.refName]], wr.local, wr.suffix);
            var end := Step(Step(Step(Step(sys, FetchBase(w)), ReadRef(w)), MergeAndCommit(w, order)), Advance(w));
            && end.writers[w].stage.Done? && end.refs == sys.refs[wr.refName := end.writers[w].stage.value]
            && end.snaps == sys.snaps[end.writers[w].stage.value := MergeOver(i, order)]
  {
    hide SnapId, MergeOver, IsOrder;
    var one := StepFetchBase(sys, w);
    var two := StepReadRef(one, w);
    var three := StepMerge(two, w, order);
    WriterSteps(sys, w, order);
    WriterSteps(one, w, order);
    WriterSteps(two, w, order);
    WriterSteps(three, w, order);
  }

  // ----- what every run keeps -----------------------------------------------------------

  ghost predicate IsMerge(base: Snapshot, winner: Snapshot, local: Snapshot, suffix: Str, merged: Snapshot) {
    var i := Inputs(base, winner, local, suffix);
    exists order :: IsOrder(i, order) && merged == MergeOver(i, order)
  }

  /** How many advances of a ref the log holds from some point on. */
  function Advances(log: seq<Event>, name: Str, from: nat): nat
    decreases |log|
  {
    if |log| <= from then 0
    else Advances(log[..|log| - 1], name, from) + (if log[|log| - 1].name == name then 1 else 0)
  }

  /** The value the log leaves in a ref, if it has an event for it. */
  function LastInstalled(log: seq<Event>, name: Str): Option<Str>
    decreases |log|
  {
    if log == [] then None
    else if log[|log| - 1].name == name then Some(log[|log| - 1].installed)
    else LastInstalled(log[..|log| - 1], name)
  }

  ghost predicate WriterOk(sys: System, w: Writer) {
    match w.stage
    case Idle => w.used == 0
    case HasBase(base) => w.used == 0 && w.baseRoot in sys.snaps && base == sys.snaps[w.baseRoot]
    case HasWinner(base, winner) =>
      && w.baseRoot in sys.snaps && base == sys.snaps[w.baseRoot]
      && winner in sys.snaps && w.refName in sys.refs
      && w.started <= w.learned <= |sys.log|
      && (sys.refs[w.refName] != winner ==> Advances(sys.log, w.refName, w.learned) > 0)
      && w.used + Advances(sys.log, w.refName, w.learned) <= Advances(sys.log, w.refName, w.started)
    case HasMerged(base, winner, merged) =>
      && w.baseRoot in sys.snaps && base == sys.snaps[w.baseRoot]
      && winner in sys.snaps && w.refName in sys.refs
      && w.started <= w.learned <= |sys.log|
      && (sys.refs[w.refName] != winner ==> Advances(sys.log, w.refName, w.learned) > 0)
      && w.used + Advances(sys.log, w.refName, w.learned) <= Advances(sys.log, w.refName, w.started)
      && merged in sys.snaps && IsMerge(base, sys.snaps[winner], w.local, w.suffix, sys.snaps[merged])
    case Failed(f) =>
      && (f.SnapshotNotFound? ==> f.root == w.baseRoot)
      && (f.MaxRetriesExceeded? ==> w.maxRetries <= Advances(sys.log, w.refName, w.started))
    case Done(_) => true
  }

  /** An event made by a writer replaced exactly the root its merge was computed from, and
      installed a merge of it. */
  ghost predicate EventOk(sys: System, e: Event) {
    && e.installed in sys.snaps
    && (e.made.Some? ==>
          var (w, from) := e.made.value;
          && e.replaced == Some(from) && from in sys.snaps
          && w in sys.writers
          && var wr := sys.writers[w];
             && wr.baseRoot in sys.snaps && e.name == wr.refName
             && IsMerge(sys.snaps[wr.baseRoot], sys.snaps[from], wr.local, wr.suffix, sys.snaps[e.installed]))
  }

  ghost predicate Inv(sys: System) {
    && FreshAfter(sys.snaps, sys.counter)
    && [] !in sys.snaps
    && (forall name :: name in sys.refs ==> sys.refs[name] in sys.snaps)
    && (forall w :: w in sys.writers ==> WriterOk(sys, sys.writers[w]) && sys.writers[w].maxRetries >= 1)
    && (forall e :: e in sys.log ==> EventOk(sys, e))
    // the log is a chain: each advance replaced what the previous one installed
    && (forall k :: 0 <= k < |sys.log| && LastInstalled(sys.log[..k], sys.log[k].name).Some? ==>
          sys.log[k].replaced == LastInstalled(sys.log[..k], sys.log[k].name))
    && (forall name :: LastInstalled(sys.log, name).Some? ==>
          name in sys.refs && sys.refs[name] == LastInstalled(sys.log, name).value)
  }

  /** Two descriptions of one call. */
  predicate SameCall(a: Writer, b: Writer) {
    a.refName == b.refName && a.baseRoot == b.baseRoot && a.local == b.local && a.suffix == b.suffix && a.maxRetries == b.maxRetries
  }

  lemma UpdateKeepsInv(sys: System, w: nat, wr: Writer)
    requires Inv(sys) && w in sys.writers && SameCall(sys.writers[w], wr) && WriterOk(sys, wr)
    ensures Inv(sys.(writers := sys.writers[w := wr]))
  {
    hide IsMerge, FreshAfter, LastInstalled, Advances;
    var sys' := sys.(writers := sys.writers[w := wr]);
    forall x | x in sys'.writers ensures WriterOk(sys', sys'.writers[x]) && sys'.writers[x].maxRetries >= 1 {
      assert WriterOk(sys, sys'.writers[x]);
    }
    forall e | e in sys'.log ensures EventOk(sys', e) {
      assert EventOk(sys, e);
    }
  }

  lemma WriterOkAfterCommit(sys: System, s: Snapshot, w: Writer)
    requires Inv(sys) && sys.counter + 1 < Power16(16) && WriterOk(sys, w)
    ensures WriterOk(Commit(sys, s), w)
  {
    CommitIsFresh(sys.snaps, sys.counter, s);
    hide IsMerge, FreshAfter, SnapId, Inv, Advances;
  }

  lemma CommitKeepsInv(sys: System, s: Snapshot)
    requires Inv(sys) && sys.counter + 1 < Power16(16)
    ensures Inv(Commit(sys, s)) && SnapsExtend(sys.snaps, Commit(sys, s).snaps)
  {
    CommitIsFresh(sys.snaps, sys.counter, s);
    var sys' := Commit(sys, s);
    forall x | x in sys'.writers ensures WriterOk(sys', sys'.writers[x]) {
      WriterOkAfterCommit(sys, s, sys.writers[x]);
    }
    hide IsMerge, SnapId, LastInstalled, WriterOk;
    forall e | e in sys'.log ensures EventOk(sys', e) {
      assert EventOk(sys, e);
    }
  }

  lemma {:induction false} AdvancesSnoc(log: seq<Event>, e: Event, name: Str, from: nat)
    ensures Advances(log + [e], name, from) ==
            Advances(log, name, from) + (if from <= |log| && e.name == name then 1 else 0)
    ensures LastInstalled(log + [e], name) == if e.name == name then Some(e.installed) else LastInstalled(log, name)
  {
    assert (log + [e])[..|log|] == log;
    if |log| < from { NoneAdvanced(log, name, from); }
  }

  lemma NoneAdvanced(log: seq<Event>, name: Str, from: nat)
    requires |log| <= from
    ensures Advances(log, name, from) == 0
  {
  }

  lemma WriterOkAfterInstall(sys: System, name: Str, root: Str, made: Option<(nat, Str)>, w: Writer)
    requires WriterOk(sys, w)
    ensures WriterOk(Install(sys, name, root, made), w)
  {
    var sys' := Install(sys, name, root, made);
    var e := sys'.log[|sys.log|];
    AdvancesSnoc(sys.log, e, w.refName, w.learned);
    AdvancesSnoc(sys.log, e, w.refName, w.started);
    hide IsMerge, Advances, LastInstalled;
  }

  lemma InstallKeepsInv(sys: System, name: Str, root: Str, made: Option<(nat, Str)>)
    requires Inv(sys) && root in sys.snaps
    requires EventOk(sys, Event(name, if name in sys.refs then Some(sys.refs[name]) else None, root, made))
    ensures Inv(Install(sys, name, root, made))
  {
    var sys' := Install(sys, name, root, made);
    var e := sys'.log[|sys.log|];
    forall x | x in sys'.writers ensures WriterOk(sys', sys'.writers[x]) {
      WriterOkAfterInstall(sys, name, root, made, sys.writers[x]);
    }
    hide IsMerge, FreshAfter, WriterOk;
    forall f | f in sys'.log ensures EventOk(sys', f) {
      assert f == e || EventOk(sys, f);
    }
    forall n | LastInstalled(sys'.log, n).Some? ensures n in sys'.refs && sys'.refs[n] == LastInstalled(sys'.log, n).value {
      AdvancesSnoc(sys.log, e, n, 0);
    }
    forall k | 0 <= k < |sys'.log| && LastInstalled(sys'.log[..k], sys'.log[k].name).Some?
      ensures sys'.log[k].replaced == LastInstalled(sys'.log[..k], sys'.log[k].name)
    {
      if k < |sys.log| {
        assert sys'.log[..k] == sys.log[..k] && sys'.log[k] == sys.log[k];
      } else {
        assert sys'.log[..k] == sys.log;
      }
    }
  }

  lemma AcceptedKeepsInv(sys: System, w: nat)
    requires Inv(sys) && w in sys.writers && sys.writers[w].stage.HasMerged?
    requires MayAdvance(sys.refs, sys.writers[w].refName, Some(sys.writers[w].stage.mwinner))
    ensures Inv(StepAdvance(sys, w))
  {
    var wr := sys.writers[w];
    assert WriterOk(sys, wr);
    hide IsMerge, Advances, LastInstalled, FreshAfter, SnapId;
    var made := Some((w, wr.stage.mwinner));
    InstallKeepsInv(sys, wr.refName, wr.stage.merged, made);
    var mid := Install(sys, wr.refName, wr.stage.merged, made);
    UpdateKeepsInv(mid, w, wr.(stage := Done(wr.stage.merged)));
  }

  lemma RefusedKeepsInv(sys: System, w: nat)
    requires Inv(sys) && w in sys.writers && sys.writers[w].stage.HasMerged?
    requires !MayAdvance(sys.refs, sys.writers[w].refName, Some(sys.writers[w].stage.mwinner))
    ensures Inv(StepAdvance(sys, w))
  {
    var wr := sys.writers[w];
    assert WriterOk(sys, wr) && (wr.refName in sys.refs ==> sys.refs[wr.refName] in sys.snaps);
    hide Inv, IsMerge, Advances, LastInstalled, FreshAfter, SnapId;
    NoneAdvanced(sys.log, wr.refName, |sys.log|);
    var next := if wr.used + 1 >= wr.maxRetries then Failed(MaxRetriesExceeded(wr.maxRetries))
                else HasWinner(wr.stage.mbase, CurrentOf(sys.refs, wr.refName));
    UpdateKeepsInv(sys, w, wr.(stage := next, used := wr.used + 1, learned := |sys.log|));
  }

  lemma AdvanceKeepsInv(sys: System, w: nat)
    requires Inv(sys) && w in sys.writers
    ensures Inv(StepAdvance(sys, w))
  {
    hide Inv;
    var wr := sys.writers[w];
    if wr.stage.HasMerged? {
      if MayAdvance(sys.refs, wr.refName, Some(wr.stage.mwinner)) {
        AcceptedKeepsInv(sys, w);
      } else {
        RefusedKeepsInv(sys, w);
      }
    }
  }

  lemma MergeKeepsInv(sys: System, w: nat, order: seq<Str>)
    requires Inv(sys) && w in sys.writers && sys.counter + 1 < Power16(16)
    ensures Inv(StepMerge(sys, w, order)) && SnapsExtend(sys.snaps, StepMerge(sys, w, order).snaps)
  {
    var wr := sys.writers[w];
    if wr.stage.HasWinner? {
      assert WriterOk(sys, wr);
      var i := Inputs(wr.stage.hbase, sys.snaps[wr.stage.winner], wr.local, wr.suffix);
      if IsOrder(i, order) {
        var merged := MergeOver(i, order);
        CommitKeepsInv(sys, merged);
        WriterOkAfterCommit(sys, merged, wr);
        var mid := Commit(sys, merged);
        CommitIsFresh(sys.snaps, sys.counter, merged);
        var stage := HasMerged(wr.stage.hbase, wr.stage.winner, SnapId(sys.counter + 1));
        assert IsMerge(wr.stage.hbase, mid.snaps[wr.stage.winner], wr.local, wr.suffix, mid.snaps[stage.merged]);
        hide Inv, Advances, IsMerge, SnapId, FreshAfter, MergeOver, IsOrder;
        UpdateKeepsInv(mid, w, wr.(stage := stage));
      }
    }
  }

  lemma FetchBaseKeepsInv(sys: System, w: nat)
    requires Inv(sys) && w in sys.writers
    ensures Inv(StepFetchBase(sys, w)) && StepFetchBase(sys, w).snaps == sys.snaps
  {
    if sys.writers[w].stage.Idle? {
      assert WriterOk(sys, sys.writers[w]);
      hide Inv;
      UpdateKeepsInv(sys, w, StepFetchBase(sys, w).writers[w]);
    }
  }

  lemma ReadRefKeepsInv(sys: System, w: nat)
    requires Inv(sys) && w in sys.writers
    ensures Inv(StepReadRef(sys, w)) && StepReadRef(sys, w).snaps == sys.snaps
  {
    var wr := sys.writers[w];
    if wr.stage.HasBase? {
      assert WriterOk(sys, wr) && (wr.refName in sys.refs ==> sys.refs[wr.refName] in sys.snaps);
      NoneAdvanced(sys.log, wr.refName, |sys.log|);
      hide Inv;
      UpdateKeepsInv(sys, w, StepReadRef(sys, w).writers[w]);
    }
  }

  lemma StepKeepsInv(sys: System, a: Action)
    requires Inv(sys) && sys.counter + 1 < Power16(16)
    ensures Inv(Step(sys, a)) && Step(sys, a).counter <= sys.counter + 1
    ensures SnapsExtend(sys.snaps, Step(sys, a).snaps)
  {
    ExtendsItself(sys.snaps);
    hide Inv, SnapsExtend, SnapId, MergeOver, IsOrder;
    match a
    case FetchBase(w) => if w in sys.writers { FetchBaseKeepsInv(sys, w); }
    case ReadRef(w) => if w in sys.writers { ReadRefKeepsInv(sys, w); }
    case MergeAndCommit(w, order) => if w in sys.writers { MergeKeepsInv(sys, w, order); }
    case Advance(w) => if w in sys.writers { AdvanceKeepsInv(sys, w); }
    case OutsideCommit(s) => CommitKeepsInv(sys, s);
    case OutsideAdvance(name, expected, root) =>
      if root in sys.snaps && MayAdvance(sys.refs, name, expected) { InstallKeepsInv(sys, name, root, None); }
  }

  /** Writers about to start, in a store where every ref names a stored snapshot. */
  ghost predicate Init(sys: System) {
    && FreshAfter(sys.snaps, sys.counter) && [] !in sys.snaps && sys.log == []
    && (forall name :: name in sys.refs ==> sys.refs[name] in sys.snaps)
    && (forall w :: w in sys.writers ==> sys.writers[w].stage.Idle? && sys.writers[w].used == 0 && sys.writers[w].maxRetries >= 1)
  }

  /** Every reachable state, whatever the interleaving, satisfies the invariant; and what an
      identifier once resolved to it resolves to for good. */
  lemma {:induction false} RunKeepsInv(sys: System, actions: seq<Action>)
    requires Init(sys) && sys.counter + |actions| < Power16(16)
    ensures Inv(Run(sys, actions)) && Run(sys, actions).counter <= sys.counter + |actions|
    ensures SnapsExtend(sys.snaps, Run(sys, actions).snaps)
  {
    if actions != [] {
      var init := actions[..|actions| - 1];
      RunKeepsInv(sys, init);
      StepKeepsInv(Run(sys, init), actions[|actions| - 1]);
    }
  }

  /** The empty string a refused caller may be told never becomes a root to fetch, and no
      reconcile gives up because a winner's snapshot is missing: a failure is a missing base, a
      missing ref, or as many other advances of the ref as retries. */
  lemma NoBadFetch(sys: System, actions: seq<Action>, w: nat)
    requires Init(sys) && sys.counter + |actions| < Power16(16) && w in Run(sys, actions).writers
    ensures
      var end := Run(sys, actions); var wr := end.writers[w];
      && (wr.stage.HasWinner? ==> wr.stage.winner != [] && wr.stage.winner in end.snaps)
      && (wr.stage.Failed? && wr.stage.failure.SnapshotNotFound? ==> wr.stage.failure.root == wr.baseRoot)
      && (wr.stage.Failed? && wr.stage.failure.MaxRetriesExceeded? ==>
            Advances(end.log, wr.refName, wr.started) >= wr.maxRetries)
  {
    RunKeepsInv(sys, actions);
    assert WriterOk(Run(sys, actions), Run(sys, actions).writers[w]);
  }

  /** Every successful advance by a writer, in every run: the ref held exactly the root the
      merge was computed from, that is what the previous advance had installed, and what the
      writer installed is a merge of its base, that root's snapshot and its own edits. */
  lemma AdvancesReplaceTheirWinner(sys: System, actions: seq<Action>, k: nat)
    requires Init(sys) && sys.counter + |actions| < Power16(16)
    requires k < |Run(sys, actions).log| && Run(sys, actions).log[k].made.Some?
    ensures
      var end := Run(sys, actions); var e := end.log[k]; var (w, from) := e.made.value;
      && e.replaced == Some(from)
      && (LastInstalled(end.log[..k], e.name).Some? ==> LastInstalled(end.log[..k], e.name) == Some(from))
      && w in end.writers && from in end.snaps && e.installed in end.snaps
      && var wr := end.writers[w];
         && wr.baseRoot in end.snaps
         && IsMerge(end.snaps[wr.baseRoot], end.snaps[from], wr.local, wr.suffix, end.snaps[e.installed])
  {
    RunKeepsInv(sys, actions);
    assert Run(sys, actions).log[k] in Run(sys, actions).log;
  }

  // ----- no edit is lost ----------------------------------------------------------------

  function SnapAt(snaps: Snaps, root: Str): Snapshot {
    if root in snaps then snaps[root] else map[]
  }

  /** The inputs a writer's advance was merged from. */
  function MergeInputs(sys: System, e: Event): Inputs
    requires e.made.Some? && e.made.value.0 in sys.writers
  {
    var (w, from) := e.made.value;
    var wr := sys.writers[w];
    Inputs(SnapAt(sys.snaps, wr.baseRoot), SnapAt(sys.snaps, from), wr.local, wr.suffix)
  }

  /** Only writers of one base advance the ref, and the names of their conflict copies are fresh. */
  ghost predicate FamilyOf(sys: System, name: Str, base: Snapshot) {
    forall e :: e in sys.log && e.name == name ==>
      && e.made.Some? && e.made.value.0 in sys.writers
      && MergeInputs(sys, e).base == base && FreshCopies(MergeInputs(sys, e))
  }

  /** A snapshot holds a content at a place where the base does not have it. */
  predicate HoldsNew(base: Snapshot, s: Snapshot, at: Str, content: FileState) {
    at in s && s[at] == content && content.Present? && StateAt(base, at) != content
  }

  /** Where a writer's edit of `p` goes: the path, or its copy in a conflict. */
  function PlaceOf(i: Inputs, p: Str): Str {
    if Conflicts(i, p) then ConflictName.ConflictCopyPath(p, i.suffix) else p
  }

  lemma MergeKeepsAll(i: Inputs, merged: Snapshot, p: Str)
    requires IsMerge(i.base, i.winner, i.local, i.suffix, merged) && FreshCopies(i)
    ensures KeptAt(i, merged, p)
  {
    assert i == Inputs(i.base, i.winner, i.local, i.suffix);
    var order :| IsOrder(i, order) && merged == MergeOver(i, order);
    FreshCopiesDoNotClobber(i);
    hide FreshCopies, MergeOver, IsOrder, NoClobber, KeptAt;
    NothingIsLostIff(i, order);
    assert KeptAt(i, MergeOver(i, order), p);
  }

  /** A merge keeps all the winner has that is new. */
  lemma MergeKeepsNew(i: Inputs, merged: Snapshot, at: Str, content: FileState)
    requires IsMerge(i.base, i.winner, i.local, i.suffix, merged) && FreshCopies(i)
    requires HoldsNew(i.base, i.winner, at, content)
    ensures HoldsNew(i.base, merged, at, content)
  {
    MergeKeepsAll(i, merged, at);
    hide IsMerge, FreshCopies, Conflicts;
  }

  /** A newly written content is in the merge, and new there. */
  lemma MergeHoldsEdit(i: Inputs, merged: Snapshot, p: Str)
    requires IsMerge(i.base, i.winner, i.local, i.suffix, merged) && FreshCopies(i)
    requires LocalChanged(i, p) && StateAt(i.local, p).Present?
    ensures HoldsNew(i.base, merged, PlaceOf(i, p), i.local[p])
  {
    MergeKeepsAll(i, merged, p);
    assert Conflicts(i, p) ==> PlaceOf(i, p) !in AllPaths(i);
    hide IsMerge, FreshCopies, Conflicts, ConflictName.ConflictCopyPath;
  }

  /** An advance of a writer, read off the invariant. */
  lemma EventMerged(sys: System, k: nat)
    requires Inv(sys) && k < |sys.log| && sys.log[k].made.Some?
    ensures var e := sys.log[k];
            && e.made.value.0 in sys.writers && e.made.value.1 in sys.snaps && e.installed in sys.snaps
            && (var i := MergeInputs(sys, e);
                IsMerge(i.base, i.winner, i.local, i.suffix, sys.snaps[e.installed]) && i.winner == sys.snaps[e.made.value.1])
            && (LastInstalled(sys.log[..k], e.name).Some? ==> LastInstalled(sys.log[..k], e.name) == Some(e.made.value.1))
  {
    assert sys.log[k] in sys.log && EventOk(sys, sys.log[k]);
    hide IsMerge;
  }

  /** What one advance installed that is new stays through all later ones. */
  lemma {:induction false} NewContentStays(sys: System, name: Str, base: Snapshot, k: nat, n: nat, at: Str, content: FileState)
    requires Inv(sys) && FamilyOf(sys, name, base)
    requires k < n <= |sys.log| && sys.log[k].name == name && sys.log[k].installed in sys.snaps
    requires HoldsNew(base, sys.snaps[sys.log[k].installed], at, content)
    ensures var last := LastInstalled(sys.log[..n], name);
            last.Some? && last.value in sys.snaps && HoldsNew(base, sys.snaps[last.value], at, content)
    decreases n
  {
    hide Inv, HoldsNew, IsMerge, FreshCopies;
    var e := sys.log[n - 1];
    var before, upto := sys.log[..n - 1], sys.log[..n];
    assert upto[|upto| - 1] == e && upto[..|upto| - 1] == before && e in sys.log;
    if n - 1 > k {
      NewContentStays(sys, name, base, k, n - 1, at, content);
      if e.name == name {
        EventMerged(sys, n - 1);
        hide FamilyOf;
        MergeKeepsNew(MergeInputs(sys, e), sys.snaps[e.installed], at, content);
      }
    }
  }

  /** A writer that is done has its advance in the log. */
  ghost predicate FinishedAt(sys: System, w: nat, k: nat) {
    && w in sys.writers && k < |sys.log| && sys.log[k].name == sys.writers[w].refName
    && sys.log[k].made.Some? && sys.log[k].made.value.0 == w
  }

  ghost predicate FinishedAreLogged(sys: System) {
    forall w :: w in sys.writers && sys.writers[w].stage.Done? ==> exists k: nat :: FinishedAt(sys, w, k)
  }

  /** A step only adds to the log, and who is done after it was so before or just advanced. */
  lemma StepFinishes(sys: System, a: Action, w: nat)
    requires w in Step(sys, a).writers
    ensures var sys' := Step(sys, a);
            && sys.log <= sys'.log && w in sys.writers && sys'.writers[w].refName == sys.writers[w].refName
            && (sys'.writers[w].stage.Done? ==> sys.writers[w].stage.Done? || FinishedAt(sys', w, |sys.log|))
  {
    hide MergeOver, IsOrder, SnapId, MayAdvance, CurrentOf;
  }

  lemma StepKeepsFinished(sys: System, a: Action)
    requires FinishedAreLogged(sys)
    ensures FinishedAreLogged(Step(sys, a))
  {
    var sys' := Step(sys, a);
    forall w | w in sys'.writers && sys'.writers[w].stage.Done? ensures exists k: nat :: FinishedAt(sys', w, k) {
      StepFinishes(sys, a, w);
      hide Step;
      if sys.writers[w].stage.Done? {
        var k: nat :| FinishedAt(sys, w, k);
        assert sys'.log[k] == sys.log[k];
        assert FinishedAt(sys', w, k);
      }
    }
  }

  lemma {:induction false} FinishedLogged(sys: System, actions: seq<Action>)
    requires Init(sys)
    ensures FinishedAreLogged(Run(sys, actions))
  {
    if actions != [] {
      hide Step, FinishedAreLogged;
      FinishedLogged(sys, actions[..|actions| - 1]);
      StepKeepsFinished(Run(sys, actions[..|actions| - 1]), actions[|actions| - 1]);
    }
  }

  lemma AdvancedEditStays(sys: System, name: Str, base: Snapshot, k: nat, p: Str)
    requires Inv(sys) && FamilyOf(sys, name, base)
    requires k < |sys.log| && sys.log[k].name == name && sys.log[k] in sys.log
    requires LocalChanged(MergeInputs(sys, sys.log[k]), p) && StateAt(MergeInputs(sys, sys.log[k]).local, p).Present?
    ensures var i := MergeInputs(sys, sys.log[k]);
            && name in sys.refs && sys.refs[name] in sys.snaps
            && PlaceOf(i, p) in sys.snaps[sys.refs[name]] && sys.snaps[sys.refs[name]][PlaceOf(i, p)] == i.local[p]
  {
    RefIsLastInstalled(sys, name);
    hide Inv, IsMerge, PlaceOf, FreshCopies, LastInstalled;
    var e := sys.log[k];
    var i := MergeInputs(sys, e);
    EventMerged(sys, k);
    MergeHoldsEdit(i, sys.snaps[e.installed], p);
    NewContentStays(sys, name, base, k, |sys.log|, PlaceOf(i, p), i.local[p]);
    assert sys.log[..|sys.log|] == sys.log;
  }

  /** The same of one state. */
  lemma FinishedEditStays(sys: System, base: Snapshot, w: nat, p: Str)
    requires Inv(sys) && FinishedAreLogged(sys)
    requires w in sys.writers && FinishedEdit(sys, base, w, p)
    ensures var wr := sys.writers[w];
            && wr.refName in sys.refs && sys.refs[wr.refName] in sys.snaps
            && HasEdit(sys.snaps[sys.refs[wr.refName]], wr, p)
  {
    hide Inv, FreshCopies, Conflicts;
    var k: nat :| FinishedAt(sys, w, k);
    assert sys.log[k] in sys.log;
    AdvancedEditStays(sys, sys.writers[w].refName, base, k, p);
  }

  /** A writer's content of `p` is there, at the path or at its conflict copy. */
  predicate HasEdit(s: Snapshot, wr: Writer, p: Str)
    requires p in wr.local
  {
    var copy := ConflictName.ConflictCopyPath(p, wr.suffix);
    (p in s && s[p] == wr.local[p]) || (copy in s && s[copy] == wr.local[p])
  }

  /** End to end: when the writers of one base advance a ref, in whatever interleaving and with
      however many retries, and the names of their copies are fresh, the snapshot the ref names at
      the end holds every content that a finished writer newly wrote, at its path or at its
      conflict copy. */
  lemma NoFinishedEditIsLost(sys: System, actions: seq<Action>, base: Snapshot, w: nat, p: Str)
    requires Init(sys) && sys.counter + |actions| < Power16(16)
    ensures var end := Run(sys, actions);
            w in end.writers && FinishedEdit(end, base, w, p) ==>
              var wr := end.writers[w];
              && wr.refName in end.refs && end.refs[wr.refName] in end.snaps
              && HasEdit(end.snaps[end.refs[wr.refName]], wr, p)
  {
    RunKeepsInv(sys, actions);
    FinishedLogged(sys, actions);
    hide Run, Init, Inv;
    var end := Run(sys, actions);
    if w in end.writers && FinishedEdit(end, base, w, p) {
      FinishedEditStays(end, base, w, p);
    }
  }

  /** A finished writer of such a family wrote a new content at `p`. */
  ghost predicate FinishedEdit(sys: System, base: Snapshot, w: nat, p: Str)
    requires w in sys.writers
  {
    var wr := sys.writers[w];
    wr.stage.Done? && FamilyOf(sys, wr.refName, base) && StateAt(wr.local, p).Present? && StateAt(wr.local, p) != StateAt(base, p)
  }

  lemma RefIsLastInstalled(sys: System, name: Str)
    requires Inv(sys)
    ensures LastInstalled(sys.log, name).Some? ==> name in sys.refs && Some(sys.refs[name]) == LastInstalled(sys.log, name)
  {
  }

  // ----- the loop itself ----------------------------------------------------------------

  /** What other clients may do to the shared stores between two steps of this one. */
  datatype OtherAct = OtherCommit(s: Snapshot) | OtherAdvance(name: Str, expected: Option<Str>, root: Str)

  predicate ActOk(a: OtherAct) {
    a.OtherCommit? ==> [] !in a.s
  }

  predicate TurnsOk(turns: seq<seq<OtherAct>>) {
    forall t, a :: t in turns && a in t ==> ActOk(a)
  }

  ghost predicate StoresOk(refs: Refs, snaps: Snaps, counter: nat) {
    && FreshAfter(snaps, counter) && [] !in snaps
    && (forall name :: name in refs ==> refs[name] in snaps)
    && (forall root :: root in snaps ==> [] !in snaps[root])
  }

  function TotalActs(turns: seq<seq<OtherAct>>): nat {
    if turns == [] then 0 else |turns[0]| + TotalActs(turns[1..])
  }

  /** Advances of one ref that other clients attempt. */
  function RivalsIn(acts: seq<OtherAct>, name: Str): nat {
    if acts == [] then 0
    else RivalsIn(acts[..|acts| - 1], name)
         + if acts[|acts| - 1].OtherAdvance? && acts[|acts| - 1].name == name then 1 else 0
  }

  function Rivals(turns: seq<seq<OtherAct>>, name: Str): nat {
    if turns == [] then 0 else RivalsIn(turns[0], name) + Rivals(turns[1..], name)
  }

  /** Other clients take a turn: any commits, and any advances to committed roots. */
  method Interleave(refStore: MemRefStore, snapStore: MemSnapshotStore, turns: seq<seq<OtherAct>>)
    returns (rest: seq<seq<OtherAct>>)
    requires StoresOk(refStore.refs, snapStore.snaps, snapStore.counter)
    requires snapStore.counter + TotalActs(turns) < Power16(16)
    requires TurnsOk(turns)
    modifies refStore, snapStore
    ensures StoresOk(refStore.refs, snapStore.snaps, snapStore.counter)
    ensures snapStore.counter + TotalActs(rest) <= old(snapStore.counter) + TotalActs(turns)
    ensures TurnsOk(rest)
    ensures SnapsExtend(old(snapStore.snaps), snapStore.snaps)
    ensures old(refStore.refs.Keys) <= refStore.refs.Keys
    ensures turns == [] ==> rest == [] && refStore.refs == old(refStore.refs) && snapStore.snaps == old(snapStore.snaps)
    ensures forall name :: Rivals(rest, name) <= Rivals(turns, name)
    ensures forall name :: name in old(refStore.refs) && refStore.refs[name] != old(refStore.refs)[name] ==>
              Rivals(rest, name) < Rivals(turns, name)
  {
    if turns == [] {
      ExtendsItself(snapStore.snaps);
      return [];
    }
    assert forall a :: a in turns[0] ==> ActOk(a);
    hide StoresOk, SnapsExtend, RivalsIn, ActOk;
    TakeTurn(refStore, snapStore, turns[0]);
    return turns[1..];
  }

  /** One turn of other clients. */
  method TakeTurn(refStore: MemRefStore, snapStore: MemSnapshotStore, acts: seq<OtherAct>)
    requires StoresOk(refStore.refs, snapStore.snaps, snapStore.counter)
    requires snapStore.counter + |acts| < Power16(16) && forall a :: a in acts ==> ActOk(a)
    modifies refStore, snapStore
    ensures StoresOk(refStore.refs, snapStore.snaps, snapStore.counter)
    ensures snapStore.counter <= old(snapStore.counter) + |acts|
    ensures SnapsExtend(old(snapStore.snaps), snapStore.snaps)
    ensures old(refStore.refs.Keys) <= refStore.refs.Keys
    ensures forall name :: name in old(refStore.refs) && refStore.refs[name] != old(refStore.refs)[name] ==>
              RivalsIn(acts, name) > 0
  {
    hide StoresOk, SnapsExtend;
    ExtendsItself(snapStore.snaps);
    var k := 0;
    while k < |acts|
      invariant 0 <= k <= |acts|
      invariant StoresOk(refStore.refs, snapStore.snaps, snapStore.counter)
      invariant snapStore.counter <= old(snapStore.counter) + k
      invariant SnapsExtend(old(snapStore.snaps), snapStore.snaps)
      invariant old(refStore.refs.Keys) <= refStore.refs.Keys
      invariant forall name :: name in old(refStore.refs) && refStore.refs[name] != old(refStore.refs)[name] ==>
                  RivalsIn(acts[..k], name) > 0
    {
      assert acts[..k + 1][..k] == acts[..k];
      assert ActOk(acts[k]);
      hide ActOk;
      ghost var snaps := snapStore.snaps;
      OneAct(refStore, snapStore, acts[k]);
      Extended(old(snapStore.snaps), snaps, snapStore.snaps, []);
      k := k + 1;
    }
    assert acts[..k] == acts;
  }

  /** One thing another client does. */
  method OneAct(refStore: MemRefStore, snapStore: MemSnapshotStore, act: OtherAct)
    requires StoresOk(refStore.refs, snapStore.snaps, snapStore.counter)
    requires snapStore.counter + 1 < Power16(16) && ActOk(act)
    modifies refStore, snapStore
    ensures StoresOk(refStore.refs, snapStore.snaps, snapStore.counter)
    ensures snapStore.counter <= old(snapStore.counter) + 1
    ensures SnapsExtend(old(snapStore.snaps), snapStore.snaps)
    ensures old(refStore.refs.Keys) <= refStore.refs.Keys
    ensures forall name :: name in old(refStore.refs) && refStore.refs[name] != old(refStore.refs)[name] ==>
              act.OtherAdvance? && act.name == name
  {
    hide SnapId, FreshAfter;
    match act {
      case OtherCommit(s) =>
        var _ := snapStore.Commit(s);
      case OtherAdvance(name, expected, root) =>
        if name != [] && root in snapStore.snaps {
          var _ := refStore.Advance(name, expected, root);
        }
    }
  }

  lemma MergeNamesPaths(i: Inputs, order: seq<Str>)
    requires IsOrder(i, order) && [] !in AllPaths(i)
    ensures [] !in MergeOver(i, order)
  {
    MergeOverAt(i, order, []);
    forall p, v | Writes(i, p, ([], v)) ensures false {
      WriteShape(i, p, ([], v));
      ConflictName.CopyIsElsewhere(p, i.suffix);
    }
  }

  lemma ShowMerge(i: Inputs, order: seq<Str>)
    requires IsOrder(i, order)
    ensures IsMerge(i.base, i.winner, i.local, i.suffix, MergeOver(i, order))
  {
  }

  /** The middle of the loop body: fetch the winner, merge, commit. */
  method MergeOnce(refs: Refs, snapStore: MemSnapshotStore, baseSnap: Snapshot, winnerRoot: Str,
                   localOverlay: Snapshot, suffix: Str) returns (mergedRoot: Option<Str>)
    requires suffix != [] && winnerRoot != [] && [] !in baseSnap && [] !in localOverlay
    requires StoresOk(refs, snapStore.snaps, snapStore.counter) && snapStore.counter + 1 < Power16(16)
    modifies snapStore
    ensures StoresOk(refs, snapStore.snaps, snapStore.counter) && snapStore.counter <= old(snapStore.counter) + 1
    ensures SnapsExtend(old(snapStore.snaps), snapStore.snaps)
    ensures mergedRoot.None? <==> winnerRoot !in old(snapStore.snaps)
    ensures mergedRoot.Some? ==>
      && mergedRoot.value in snapStore.snaps && mergedRoot.value != []
      && IsMerge(baseSnap, snapStore.snaps[winnerRoot], localOverlay, suffix, snapStore.snaps[mergedRoot.value])
  {
    hide SnapId, FreshAfter, IsMerge, MergeOver, IsOrder;
    var winnerSnap := snapStore.Fetch(winnerRoot);
    if winnerSnap.None? {
      return None;
    }
    var i := Inputs(baseSnap, winnerSnap.value, localOverlay, suffix);
    var merge, order := MergeSnapshots(i);
    MergeNamesPaths(i, order);
    ShowMerge(i, order);
    var id := snapStore.Commit(merge.merged);
    return Some(id);
  }

  lemma StoredRoots(refs: Refs, snaps: Snaps, counter: nat, name: Str, root: Str)
    requires StoresOk(refs, snaps, counter)
    ensures [] !in snaps && (name in refs ==> refs[name] in snaps)
    ensures root in snaps ==> root != [] && [] !in snaps[root] && StoresOk(refs[name := root], snaps, counter)
  {
  }

  lemma Extended(a: Snaps, b: Snaps, c: Snaps, root: Str)
    requires SnapsExtend(a, b) && SnapsExtend(b, c)
    ensures SnapsExtend(a, c)
    ensures root in b ==> root in c && c[root] == b[root]
  {
  }

  /** The ref has moved on from the root a writer knows. */
  function Behind(refs: Refs, name: Str, known: Str): nat {
    if name in refs && refs[name] == known then 0 else 1
  }

  lemma ExtendsItself(s: Snaps)
    ensures SnapsExtend(s, s)
  {
  }

  /** `reconcile`, with other clients taking a turn before every access to a shared store.
      Success means the ref held the winner that was merged right up to the moment the merge
      replaced it (`held`), and now holds the merge. */
  method ReconcileLoop(refStore: MemRefStore, snapStore: MemSnapshotStore, refName: Str, baseRoot: Str,
                       localOverlay: Snapshot, suffix: Str, maxRetries: nat, others: seq<seq<OtherAct>>)
    returns (r: Result<Str, Failure>, ghost held: Refs, ghost winner: Str)
    requires refName != [] && baseRoot != [] && suffix != [] && 1 <= maxRetries <= 100
    requires StoresOk(refStore.refs, snapStore.snaps, snapStore.counter) && [] !in localOverlay
    requires TurnsOk(others)
    requires snapStore.counter + TotalActs(others) + maxRetries < Power16(16)
    modifies refStore, snapStore
    ensures StoresOk(refStore.refs, snapStore.snaps, snapStore.counter)
    ensures SnapsExtend(old(snapStore.snaps), snapStore.snaps)
    ensures r.Ok? ==>
      && refName in held && held[refName] == winner && refStore.refs == held[refName := r.value]
      && baseRoot in snapStore.snaps && winner in snapStore.snaps && r.value in snapStore.snaps
      && IsMerge(snapStore.snaps[baseRoot], snapStore.snaps[winner], localOverlay, suffix, snapStore.snaps[r.value])
    ensures others == [] ==> held == old(refStore.refs)
    ensures r.Err? && r.error.SnapshotNotFound? ==> r.error.root == baseRoot && baseRoot !in old(snapStore.snaps)
    ensures r.Err? && r.error.RefNotFound? ==> refName !in old(refStore.refs)
    ensures r.Err? && r.error.MaxRetriesExceeded? ==>
              r.error.attempts == maxRetries && Rivals(others, refName) >= maxRetries
  {
    hide SnapId, IsMerge, StoresOk, TotalActs, TurnsOk, SnapsExtend, Rivals, Power16;
    ghost var start := snapStore.snaps;
    var turns := Interleave(refStore, snapStore, others);
    ExtendsItself(start);
    Extended(start, start, snapStore.snaps, baseRoot);
    held, winner := refStore.refs, [];
    var baseSnap := snapStore.Fetch(baseRoot);
    if baseSnap.None? {
      return Err(SnapshotNotFound(baseRoot)), held, winner;
    }
    StoredRoots(refStore.refs, snapStore.snaps, snapStore.counter, refName, baseRoot);
    ghost var mid := snapStore.snaps;
    turns := Interleave(refStore, snapStore, turns);
    Extended(start, mid, snapStore.snaps, baseRoot);
    var first := refStore.Read(refName);
    if first.None? {
      return Err(RefNotFound), held, winner;
    }
    var winnerRoot := first.value;
    StoredRoots(refStore.refs, snapStore.snaps, snapStore.counter, refName, baseRoot);
    var n := 0;
    while n < maxRetries
      invariant 0 <= n <= maxRetries
      invariant StoresOk(refStore.refs, snapStore.snaps, snapStore.counter)
      invariant SnapsExtend(start, snapStore.snaps)
      invariant TurnsOk(turns)
      invariant others == [] ==> turns == [] && refStore.refs == old(refStore.refs) == held
      invariant snapStore.counter + TotalActs(turns) + (maxRetries - n) < Power16(16)
      invariant refName in refStore.refs && winnerRoot in snapStore.snaps
      invariant baseRoot in snapStore.snaps && snapStore.snaps[baseRoot] == baseSnap.value
      invariant n + Behind(refStore.refs, refName, winnerRoot) + Rivals(turns, refName) <= Rivals(others, refName)
    {
      ghost var s0 := snapStore.snaps;
      turns := Interleave(refStore, snapStore, turns);
      ghost var s1 := snapStore.snaps;
      Extended(start, s0, s1, baseRoot);
      Extended(start, s0, s1, winnerRoot);
      StoredRoots(refStore.refs, s1, snapStore.counter, refName, winnerRoot);
      var mergedRoot := MergeOnce(refStore.refs, snapStore, baseSnap.value, winnerRoot, localOverlay, suffix);
      if mergedRoot.None? {
        return Err(SnapshotNotFound(winnerRoot)), held, winner;
      }
      ghost var s2 := snapStore.snaps;
      Extended(start, s1, s2, baseRoot);
      Extended(start, s1, s2, winnerRoot);
      turns := Interleave(refStore, snapStore, turns);
      Extended(start, s2, snapStore.snaps, baseRoot);
      Extended(start, s2, snapStore.snaps, winnerRoot);
      Extended(start, s2, snapStore.snaps, mergedRoot.value);
      StoredRoots(refStore.refs, snapStore.snaps, snapStore.counter, refName, mergedRoot.value);
      held, winner := refStore.refs, winnerRoot;
      var result := refStore.Advance(refName, Some(winnerRoot), mergedRoot.value);
      match result {
        case Committed(value) =>
          return Ok(value), held, winner;
        case Mismatch(current) =>
          winnerRoot := current;
      }
      n := n + 1;
    }
    return Err(MaxRetriesExceeded(maxRetries)), held, winner;
  }
}

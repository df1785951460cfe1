/** The auto-sync engine (src/autosync.rs): a debounce gate and a push pipeline that re-bases
    on conflict. The clock, the watcher, the snapshotter and the uploader are scripts: what
    they answer is a parameter of every call, so a run ranges over all their behaviours. */
module AutoSync {
  import opened Base

  // ----- the outside --------------------------------------------------------------------

  /** The uploader's answer to a push; after a conflict it is asked for the new remote root. */
  datatype PushReply = PushFailed | LandedWith(uploaded: nat) | ConflictThen(rebased: Option<Str>)

  /** One round of the pipeline: the snapshot, if it succeeds, and the reply to its push. */
  datatype Attempt = Attempt(snapshot: Option<Str>, reply: PushReply)

  const MAX_CONFLICT_RETRIES: nat := 3

  /** Answers for as many rounds as the pipeline may ask for, and the clock at its two ends. */
  datatype Script = Script(attempts: seq<Attempt>, startMs: nat, endMs: nat)

  predicate Enough(s: Script) {
    |s.attempts| == 3
  }

  datatype SyncResult = SyncResult(root: Str, uploaded: nat, changedFiles: nat, elapsedMs: nat)

  /** What the engine does and learns about the remote, in order. */
  datatype Entry =
    | Seeded(seed: Option<Str>)
    | Pushed(root: Str, expected: Option<Str>)
    | Landed(landed: Str)
    | Rebased(remote: Str)

  function SaturatingSub(a: nat, b: nat): nat {
    if a >= b then a - b else 0
  }

  // ----- specification ------------------------------------------------------------------

  /** A debounce period: positive, and at most an hour. */
  type Period = n: nat | 0 < n <= 3_600_000 witness 1

  datatype Config = Config(debounceMs: Period, disabled: bool, isAgent: bool) {
    predicate Off() {
      disabled || isAgent
    }
  }

  datatype State = State(last: Option<nat>, settled: bool, expected: Option<Str>, pending: set<Str>)

  const START := State(None, false, None, {})

  datatype PipelineRun = PipelineRun(expected: Option<Str>, landed: Option<(Str, nat)>, log: seq<Entry>)

  function Pipeline(expected: Option<Str>, attempts: seq<Attempt>): PipelineRun
    decreases |attempts|
  {
    if attempts == [] then PipelineRun(expected, None, [])
    else
      var a := attempts[0];
      if a.snapshot.None? || a.snapshot.value == [] then PipelineRun(expected, None, [])
      else
        var root := a.snapshot.value;
        var push := Pushed(root, expected);
        match a.reply
        case PushFailed => PipelineRun(expected, None, [push])
        case LandedWith(uploaded) => PipelineRun(Some(root), Some((root, uploaded)), [push, Landed(root)])
        case ConflictThen(None) => PipelineRun(expected, None, [push])
        case ConflictThen(Some(remote)) =>
          var rest := Pipeline(Some(remote), attempts[1..]);
          rest.(log := [push, Rebased(remote)] + rest.log)
  }

  /** A pipeline run with what happened before it. */
  function Continued(log: seq<Entry>, p: PipelineRun): PipelineRun {
    p.(log := log + p.log)
  }

  /** One round: it ends the run, or re-bases and goes on with the next attempt. */
  lemma PipelineRound(log: seq<Entry>, expected: Option<Str>, attempts: seq<Attempt>)
    requires attempts != []
    ensures var a, all := attempts[0], Continued(log, Pipeline(expected, attempts));
            if a.snapshot.None? || a.snapshot.value == [] then all == PipelineRun(expected, None, log)
            else
              var pushed := log + [Pushed(a.snapshot.value, expected)];
              match a.reply
              case PushFailed => all == PipelineRun(expected, None, pushed)
              case LandedWith(uploaded) =>
                all == PipelineRun(Some(a.snapshot.value), Some((a.snapshot.value, uploaded)), pushed + [Landed(a.snapshot.value)])
              case ConflictThen(None) => all == PipelineRun(expected, None, pushed)
              case ConflictThen(Some(remote)) =>
                all == Continued(pushed + [Rebased(remote)], Pipeline(Some(remote), attempts[1..]))
  {
    assert log + [] == log;
    var a := attempts[0];
    if a.snapshot.Some? && a.snapshot.value != [] {
      var push := [Pushed(a.snapshot.value, expected)];
      match a.reply
      case LandedWith(_) => assert log + (push + [Landed(a.snapshot.value)]) == log + push + [Landed(a.snapshot.value)];
      case ConflictThen(Some(remote)) =>
        var rest := Pipeline(Some(remote), attempts[1..]).log;
        assert log + (push + [Rebased(remote)] + rest) == log + push + [Rebased(remote)] + rest;
      case _ =>
    }
  }

  lemma PipelineEnd(log: seq<Entry>, expected: Option<Str>)
    ensures Continued(log, Pipeline(expected, [])) == PipelineRun(expected, None, log)
  {
    assert log + [] == log;
  }

  datatype Out = Out(state: State, result: Option<SyncResult>, fired: bool, log: seq<Entry>)

  /** A whole period has passed. A clock that went back has let none pass. */
  predicate Due(debounceMs: Period, since: nat, now: nat) {
    now - since >= debounceMs
  }

  function Noted(s: State, now: nat, events: seq<Str>): State {
    if events == [] then s else s.(last := Some(now), settled := false, pending := s.pending + Elems(events))
  }

  function TickStep(cfg: Config, s: State, now: nat, events: seq<Str>, script: Script): Out {
    if cfg.Off() then Out(s, None, false, [])
    else
      var n := Noted(s, now, events);
      if n.last.None? || n.settled || !Due(cfg.debounceMs, n.last.value, now) then Out(n, None, false, [])
      else
        var p := Pipeline(n.expected, script.attempts);
        if p.landed.None? then Out(n.(settled := true, expected := p.expected), None, true, p.log)
        else
          Out(State(None, false, p.expected, {}),
              Some(SyncResult(p.landed.value.0, p.landed.value.1, |n.pending|, SaturatingSub(script.endMs, script.startMs))),
              true, p.log)
  }

  /** One sync on demand: neither the gate nor the pending paths take part. */
  function OnceStep(cfg: Config, s: State, script: Script): Out {
    if cfg.Off() then Out(s, None, false, [])
    else
      var p := Pipeline(s.expected, script.attempts);
      var result := if p.landed.None? then None
                    else Some(SyncResult(p.landed.value.0, p.landed.value.1, p.landed.value.1,
                                         SaturatingSub(script.endMs, script.startMs)));
      Out(s.(expected := p.expected), result, false, p.log)
  }

  // ----- the objects --------------------------------------------------------------------

  class DebounceGate {
    const debounceMs: Period
    var lastEventMs: Option<nat>
    var settled: bool

    constructor (debounceMs: Period)
      ensures this.debounceMs == debounceMs && lastEventMs == None && !settled
    {
      this.debounceMs := debounceMs;
      lastEventMs, settled := None, false;
    }

    method OnEvent(nowMs: nat)
      modifies this
      ensures lastEventMs == Some(nowMs) && !settled
    {
      lastEventMs, settled := Some(nowMs), false;
    }

    method CheckSettle(nowMs: nat) returns (fire: bool)
      modifies this
      ensures fire <==> old(lastEventMs.Some? && !settled && nowMs - lastEventMs.value >= debounceMs)
      ensures settled == (old(settled) || fire) && lastEventMs == old(lastEventMs)
    {
      if lastEventMs.None? {
        return false;
      }
      if settled {
        return false;
      }
      if SaturatingSub(nowMs, lastEventMs.value) >= debounceMs {
        settled := true;
        return true;
      }
      return false;
    }

    method ResetAfterSettle()
      modifies this
      ensures lastEventMs == None && !settled
    {
      lastEventMs, settled := None, false;
    }
  }

  class AutoSyncEngine {
    const disabled: bool
    const isAgent: bool
    const gate: DebounceGate
    var expectedRoot: Option<Str>
    var pendingPaths: set<Str>

    function Cfg(): Config {
      Config(gate.debounceMs, disabled, isAgent)
    }

    function Abs(): State
      reads this, gate
    {
      State(gate.lastEventMs, gate.settled, expectedRoot, pendingPaths)
    }

    constructor (debounceMs: Period, disabled: bool, isAgent: bool)
      ensures Abs() == START && Cfg() == Config(debounceMs, disabled, isAgent) && fresh(gate)
    {
      this.disabled, this.isAgent := disabled, isAgent;
      gate := new DebounceGate(debounceMs);
      expectedRoot, pendingPaths := None, {};
    }

    method SeedExpectedRoot(root: Option<Str>)
      modifies this`expectedRoot
      ensures Abs() == old(Abs()).(expected := root)
    {
      expectedRoot := root;
    }

    method PipelineInner(script: Script) returns (result: Option<SyncResult>, log: seq<Entry>)
      requires Enough(script)
      modifies this`expectedRoot
      ensures var p := Pipeline(old(expectedRoot), script.attempts);
              && expectedRoot == p.expected && log == p.log
              && result == if p.landed.None? then None
                           else Some(SyncResult(p.landed.value.0, p.landed.value.1, 0, SaturatingSub(script.endMs, script.startMs)))
    {
      hide Pipeline;
      log := [];
      ghost var all := Pipeline(expectedRoot, script.attempts);
      var i := 0;
      assert script.attempts[0..] == script.attempts;
      while i < MAX_CONFLICT_RETRIES
        invariant 0 <= i <= MAX_CONFLICT_RETRIES
        invariant all == Continued(log, Pipeline(expectedRoot, script.attempts[i..]))
      {
        var a := script.attempts[i];
        assert script.attempts[i..][0] == a && script.attempts[i..][1..] == script.attempts[i + 1..];
        PipelineRound(log, expectedRoot, script.attempts[i..]);
        if a.snapshot.None? || a.snapshot.value == [] {
          return None, log;
        }
        var root := a.snapshot.value;
        log := log + [Pushed(root, expectedRoot)];
        match a.reply {
          case PushFailed =>
            return None, log;
          case LandedWith(uploaded) =>
            expectedRoot := Some(root);
            log := log + [Landed(root)];
            return Some(SyncResult(root, uploaded, 0, SaturatingSub(script.endMs, script.startMs))), log;
          case ConflictThen(rebased) =>
            if rebased.None? {
              return None, log;
            }
            log := log + [Rebased(rebased.value)];
            expectedRoot := Some(rebased.value);
        }
        i := i + 1;
      }
      assert script.attempts[i..] == [];
      PipelineEnd(log, expectedRoot);
      return None, log;
    }

    method Tick(now: nat, events: seq<Str>, script: Script) returns (result: Option<SyncResult>, log: seq<Entry>)
      requires Enough(script)
      modifies this, gate
      ensures var out := TickStep(Cfg(), old(Abs()), now, events, script);
              Abs() == out.state && result == out.result && log == out.log
    {
      if disabled || isAgent {
        return None, [];
      }
      var i := 0;
      while i < |events|
        invariant 0 <= i <= |events|
        invariant Abs() == Noted(old(Abs()), now, events[..i])
      {
        assert events[..i + 1] == events[..i] + [events[i]];
        gate.OnEvent(now);
        pendingPaths := pendingPaths + {events[i]};
        i := i + 1;
      }
      assert events[..i] == events;
      var fire := gate.CheckSettle(now);
      if !fire {
        return None, [];
      }
      var nChanged := |pendingPaths|;
      result, log := PipelineInner(script);
      if result.Some? {
        result := Some(result.value.(changedFiles := nChanged));
        gate.ResetAfterSettle();
        pendingPaths := {};
      }
    }

    method RunOnce(script: Script) returns (result: Option<SyncResult>, log: seq<Entry>)
      requires Enough(script)
      modifies this`expectedRoot
      ensures var out := OnceStep(Cfg(), old(Abs()), script);
              Abs() == out.state && result == out.result && log == out.log
    {
      if disabled || isAgent {
        return None, [];
      }
      result, log := PipelineInner(script);
      if result.Some? {
        result := Some(result.value.(changedFiles := result.value.uploaded));
      }
    }
  }

  // ----- runs ---------------------------------------------------------------------------

  datatype Op =
    | Tick(now: nat, events: seq<Str>, script: Script)
    | Once(onceScript: Script)
    | Seed(seed: Option<Str>)

  function Step(cfg: Config, s: State, op: Op): Out {
    match op
    case Tick(now, events, script) => TickStep(cfg, s, now, events, script)
    case Once(script) => OnceStep(cfg, s, script)
    case Seed(root) => Out(s.(expected := root), None, false, [Seeded(root)])
  }

  function After(cfg: Config, ops: seq<Op>): State {
    if ops == [] then START else Step(cfg, After(cfg, ops[..|ops| - 1]), ops[|ops| - 1]).state
  }

  /** What the engine's call number `i` does. */
  function At(cfg: Config, ops: seq<Op>, i: nat): Out
    requires i < |ops|
  {
    Step(cfg, After(cfg, ops[..i]), ops[i])
  }

  function Log(cfg: Config, ops: seq<Op>): seq<Entry> {
    if ops == [] then [] else Log(cfg, ops[..|ops| - 1]) + At(cfg, ops, |ops| - 1).log
  }

  predicate HasEvents(op: Op) {
    op.Tick? && op.events != []
  }

  /** Call `k` is a tick a full quiet period after call `j`. */
  predicate DueAt(cfg: Config, ops: seq<Op>, j: nat, k: nat)
    requires j < |ops| && k < |ops|
  {
    ops[j].Tick? && ops[k].Tick? && ops[k].now - ops[j].now >= cfg.debounceMs
  }

  /** Call `j` is the last one with events, up to and including call `i`. */
  predicate LastEvents(ops: seq<Op>, j: nat, i: nat)
    requires i < |ops|
  {
    j <= i && HasEvents(ops[j]) && forall k :: j < k <= i ==> !HasEvents(ops[k])
  }

  /** What the gate's two fields say about the calls so far. */
  ghost predicate GateInv(cfg: Config, ops: seq<Op>, s: State) {
    && ((forall k :: 0 <= k < |ops| ==> !HasEvents(ops[k])) ==> s.last == None)
    && (forall j: nat :: j < |ops| && LastEvents(ops, j, |ops| - 1) ==>
          GateHolds(cfg, ops, s, j))
  }

  /** No tick of calls `j` to `n - 1` is due. */
  predicate NeverDue(cfg: Config, ops: seq<Op>, j: nat, n: nat)
    requires j < |ops| && n <= |ops|
  {
    forall k: nat :: j <= k < n ==> !DueAt(cfg, ops, j, k)
  }

  /** Armed by call `j` until a tick is due, then at rest. */
  predicate GateHolds(cfg: Config, ops: seq<Op>, s: State, j: nat)
    requires j < |ops| && ops[j].Tick?
  {
    if NeverDue(cfg, ops, j, |ops|) then s.last == Some(ops[j].now) && !s.settled else s.last == None || s.settled
  }

  lemma {:induction false} GateFollowsEvents(cfg: Config, ops: seq<Op>)
    requires !cfg.Off()
    ensures GateInv(cfg, ops, After(cfg, ops))
  {
    if ops != [] {
      hide Step, GateInv;
      var init, op := ops[..|ops| - 1], ops[|ops| - 1];
      GateFollowsEvents(cfg, init);
      GateStep(cfg, init, op, After(cfg, init));
      assert ops == init + [op];
    }
  }

  /** What one call does to the gate's two fields. */
  lemma GateFields(cfg: Config, s: State, op: Op)
    requires !cfg.Off()
    ensures var s' := Step(cfg, s, op).state;
            if HasEvents(op) then s'.last == Some(op.now) && !s'.settled
            else if op.Tick? && s.last.Some? && !s.settled && Due(cfg.debounceMs, s.last.value, op.now) then
              s'.last == None || s'.settled
            else s'.last == s.last && s'.settled == s.settled
  {
    hide Pipeline;
  }

  lemma NeverDueStep(cfg: Config, init: seq<Op>, op: Op, j: nat)
    requires j < |init|
    ensures var ops := init + [op];
            NeverDue(cfg, ops, j, |ops|) <==> NeverDue(cfg, init, j, |init|) && !DueAt(cfg, ops, j, |init|)
  {
    hide Due;
    var ops := init + [op];
    assert forall k: nat :: k < |init| ==> DueAt(cfg, ops, j, k) == DueAt(cfg, init, j, k);
  }

  lemma GateStepAt(cfg: Config, init: seq<Op>, op: Op, s: State, j: nat)
    requires !cfg.Off() && j < |init| && !HasEvents(op)
    requires init[j].Tick? && GateHolds(cfg, init, s, j)
    ensures GateHolds(cfg, init + [op], Step(cfg, s, op).state, j)
  {
    GateFields(cfg, s, op);
    NeverDueStep(cfg, init, op, j);
    hide Step, Due, NeverDue;
  }

  lemma GateStep(cfg: Config, init: seq<Op>, op: Op, s: State)
    requires !cfg.Off() && GateInv(cfg, init, s)
    ensures GateInv(cfg, init + [op], Step(cfg, s, op).state)
  {
    GateFields(cfg, s, op);
    hide Step, Due, GateHolds;
    var ops, s', n := init + [op], Step(cfg, s, op).state, |init|;
    assert ops[n] == op;
    assert forall k :: 0 <= k < n ==> ops[k] == init[k];
    forall j: nat | j <= n && LastEvents(ops, j, n)
      ensures GateHolds(cfg, ops, s', j)
    {
      if j < n {
        assert LastEvents(init, j, n - 1) && !HasEvents(ops[n]);
        GateStepAt(cfg, init, op, s, j);
      } else {
        GateArmed(cfg, init, op, s');
      }
    }
    if forall k :: 0 <= k <= n ==> !HasEvents(ops[k]) {
      assert forall k :: 0 <= k < n ==> !HasEvents(init[k]);
      assert !HasEvents(ops[n]);
    }
  }

  lemma GateArmed(cfg: Config, init: seq<Op>, op: Op, s: State)
    requires op.Tick? && s.last == Some(op.now) && !s.settled
    ensures GateHolds(cfg, init + [op], s, |init|)
  {
    var ops := init + [op];
    assert !DueAt(cfg, ops, |init|, |init|);
  }

  /** The pipeline is started at a call exactly when that is the first tick at least a full
      debounce period after the last tick that brought events: never while events keep coming,
      at most once per burst, and after a failure not before new events. */
  lemma SettleFiresIff(cfg: Config, ops: seq<Op>, i: nat)
    requires i < |ops|
    ensures At(cfg, ops, i).fired <==>
            && !cfg.disabled && !cfg.isAgent
            && exists j: nat :: LastEvents(ops, j, i) && DueAt(cfg, ops, j, i) && NeverDue(cfg, ops, j, i)
  {
    if !cfg.Off() {
      hide Pipeline, After;
      var init, s := ops[..i], After(cfg, ops[..i]);
      GateFollowsEvents(cfg, init);
      assert forall k :: 0 <= k < i ==> init[k] == ops[k];
      assert HasEvents(ops[i]) ==> !DueAt(cfg, ops, i, i);
      if HasEvents(ops[i]) {
        assert forall j: nat :: LastEvents(ops, j, i) ==> j == i;
      } else {
        forall j: nat | LastEvents(ops, j, i)
          ensures At(cfg, ops, i).fired <==> DueAt(cfg, ops, j, i) && NeverDue(cfg, ops, j, i)
        {
          assert LastEvents(init, j, |init| - 1);
          assert GateHolds(cfg, init, s, j);
          assert forall k: nat :: k < i ==> DueAt(cfg, ops, j, k) == DueAt(cfg, init, j, k);
          assert NeverDue(cfg, ops, j, i) == NeverDue(cfg, init, j, i);
        }
        if forall j: nat :: j <= i ==> !LastEvents(ops, j, i) {
          NoEvents(ops, i);
          assert forall k :: 0 <= k < i ==> !HasEvents(init[k]);
        }
      }
    }
  }

  lemma {:induction false} NoEvents(ops: seq<Op>, i: nat)
    requires i < |ops| && forall j: nat :: j <= i ==> !LastEvents(ops, j, i)
    ensures forall k :: 0 <= k <= i ==> !HasEvents(ops[k])
  {
    var k := i + 1;
    while k > 0
      invariant 0 <= k <= i + 1
      invariant forall m :: k <= m <= i ==> !HasEvents(ops[m])
    {
      k := k - 1;
      assert !LastEvents(ops, k, i);
    }
  }

  /** No call pushes more than three times, and a tick that does not settle never pushes. */
  lemma AtMostThreePushes(cfg: Config, ops: seq<Op>, i: nat)
    requires i < |ops|
    requires ops[i].Tick? ==> Enough(ops[i].script)
    requires ops[i].Once? ==> Enough(ops[i].onceScript)
    ensures Pushes(At(cfg, ops, i).log) <= 3
    ensures ops[i].Tick? && !At(cfg, ops, i).fired ==> At(cfg, ops, i).log == []
  {
    var s := After(cfg, ops[..i]);
    match ops[i]
    case Tick(now, events, script) => PipelinePushes(Noted(s, now, events).expected, script.attempts);
    case Once(script) => PipelinePushes(s.expected, script.attempts);
    case Seed(root) => assert [Seeded(root)][1..] == [];
  }

  function Pushes(log: seq<Entry>): nat {
    if log == [] then 0 else (if log[0].Pushed? then 1 else 0) + Pushes(log[1..])
  }

  lemma {:induction false} PipelinePushes(expected: Option<Str>, attempts: seq<Attempt>)
    ensures Pushes(Pipeline(expected, attempts).log) <= |attempts|
    decreases |attempts|
  {
    if attempts != [] {
      var log := Pipeline(expected, attempts).log;
      if |log| >= 1 { assert Pushes(log[1..]) == Pushes(log) - 1; }
      if |log| >= 2 { assert Pushes(log[1..]) == (if log[1].Pushed? then 1 else 0) + Pushes(log[1..][1..]); }
      var a := attempts[0];
      if a.reply.ConflictThen? && a.reply.rebased.Some? && a.snapshot.Some? && a.snapshot.value != [] {
        PipelinePushes(a.reply.rebased, attempts[1..]);
        assert log[1..][1..] == Pipeline(a.reply.rebased, attempts[1..]).log;
      }
    }
  }

  // ----- the root a push is conditioned on ----------------------------------------------

  /** The remote root last heard of: by seeding, landing or re-basing. */
  function LatestKnown(log: seq<Entry>): Option<Str> {
    if log == [] then None
    else match log[|log| - 1]
      case Seeded(root) => root
      case Landed(root) => Some(root)
      case Rebased(root) => Some(root)
      case Pushed(_, _) => LatestKnown(log[..|log| - 1])
  }

  /** Every push in `log` expects the root last heard of before it. */
  ghost predicate Chained(log: seq<Entry>) {
    forall i :: 0 <= i < |log| && log[i].Pushed? ==> log[i].expected == LatestKnown(log[..i])
  }

  lemma ChainOne(log: seq<Entry>, e: Entry)
    requires Chained(log)
    requires e.Pushed? ==> e.expected == LatestKnown(log)
    ensures Chained(log + [e])
    ensures LatestKnown(log + [e]) == match e case Seeded(r) => r case Landed(r) => Some(r) case Rebased(r) => Some(r)
                                             case Pushed(_, _) => LatestKnown(log)
  {
    var l := log + [e];
    assert l[..|log|] == log;
    forall i | 0 <= i < |l| && l[i].Pushed? ensures l[i].expected == LatestKnown(l[..i]) {
      if i < |log| { assert l[..i] == log[..i]; }
    }
  }

  lemma {:induction false} PipelineChains(log: seq<Entry>, expected: Option<Str>, attempts: seq<Attempt>)
    requires Chained(log) && LatestKnown(log) == expected
    ensures var p := Pipeline(expected, attempts);
            Chained(log + p.log) && LatestKnown(log + p.log) == p.expected
    decreases |attempts|
  {
    hide Chained, LatestKnown;
    var p := Pipeline(expected, attempts);
    if p.log == [] {
      assert log + p.log == log;
    } else {
      var a := attempts[0];
      var push := Pushed(a.snapshot.value, expected);
      ChainOne(log, push);
      var log1 := log + [push];
      match a.reply
      case LandedWith(_) =>
        ChainOne(log1, Landed(a.snapshot.value));
        assert log + p.log == log1 + [Landed(a.snapshot.value)];
      case ConflictThen(Some(remote)) =>
        ChainOne(log1, Rebased(remote));
        var log2 := log1 + [Rebased(remote)];
        PipelineChains(log2, Some(remote), attempts[1..]);
        assert log + p.log == log2 + Pipeline(Some(remote), attempts[1..]).log;
      case _ =>
    }
  }

  lemma StepChains(cfg: Config, log: seq<Entry>, s: State, op: Op)
    requires Chained(log) && LatestKnown(log) == s.expected
    ensures var out := Step(cfg, s, op);
            Chained(log + out.log) && LatestKnown(log + out.log) == out.state.expected
  {
    hide Chained, LatestKnown, Pipeline, Due;
    assert log + [] == log;
    match op
    case Seed(root) => ChainOne(log, Seeded(root));
    case Tick(now, events, script) => PipelineChains(log, s.expected, script.attempts);
    case Once(script) => PipelineChains(log, s.expected, script.attempts);
  }

  /** In any run, every push is conditioned on the root of the latest landing, re-base or seed
      before it, or on nothing when there was none: the engine never overwrites a remote root
      it has not heard of since. */
  lemma {:induction false} EveryPushExpectsTheLatestRoot(cfg: Config, ops: seq<Op>)
    ensures Chained(Log(cfg, ops))
    ensures LatestKnown(Log(cfg, ops)) == After(cfg, ops).expected
  {
    if ops != [] {
      hide Chained, LatestKnown, Step;
      var init := ops[..|ops| - 1];
      EveryPushExpectsTheLatestRoot(cfg, init);
      StepChains(cfg, Log(cfg, init), After(cfg, init), ops[|ops| - 1]);
    }
  }

  // ----- what a success reports ---------------------------------------------------------

  /** Call `k` is a tick whose settle succeeded. */
  predicate Succeeded(cfg: Config, ops: seq<Op>, k: nat)
    requires k < |ops|
  {
    ops[k].Tick? && At(cfg, ops, k).result.Some?
  }

  /** An event for `p` came in one of the first `n` calls and no settle succeeded since. */
  predicate SinceSuccess(cfg: Config, ops: seq<Op>, n: nat, p: Str)
    requires n <= |ops|
  {
    exists k: nat :: k < n && ops[k].Tick? && p in ops[k].events && forall m: nat :: k <= m < n ==> !Succeeded(cfg, ops, m)
  }

  lemma {:induction false} PendingIsSinceSuccess(cfg: Config, ops: seq<Op>, n: nat)
    requires n <= |ops| && !cfg.Off()
    ensures forall p :: p in After(cfg, ops[..n]).pending <==> SinceSuccess(cfg, ops, n, p)
    decreases n
  {
    if n > 0 {
      PendingIsSinceSuccess(cfg, ops, n - 1);
      var s, op := After(cfg, ops[..n - 1]), ops[n - 1];
      assert ops[..n][..n - 1] == ops[..n - 1];
      assert After(cfg, ops[..n]) == At(cfg, ops, n - 1).state;
      forall p ensures p in After(cfg, ops[..n]).pending <==> SinceSuccess(cfg, ops, n, p) {
        PendingStep(cfg, s, op, p);
        if SinceSuccess(cfg, ops, n - 1, p) && !Succeeded(cfg, ops, n - 1) {
          var k: nat :| k < n - 1 && ops[k].Tick? && p in ops[k].events && forall m: nat :: k <= m < n - 1 ==> !Succeeded(cfg, ops, m);
          assert forall m: nat :: k <= m < n ==> !Succeeded(cfg, ops, m);
        }
        if op.Tick? && p in op.events && !Succeeded(cfg, ops, n - 1) {
          assert forall m: nat :: n - 1 <= m < n ==> !Succeeded(cfg, ops, m);
        }
      }
    }
  }

  lemma PendingStep(cfg: Config, s: State, op: Op, p: Str)
    requires !cfg.Off()
    ensures var out := Step(cfg, s, op);
            p in out.state.pending <==>
            !(op.Tick? && out.result.Some?) && (p in s.pending || (op.Tick? && p in op.events))
  {
    hide Pipeline;
  }

  /** A settle that succeeds reports exactly the number of distinct paths that had events since
      the last one that did, counting those of failed settles and of its own tick. */
  lemma SuccessReportsDistinctPaths(cfg: Config, ops: seq<Op>, i: nat) returns (paths: set<Str>)
    requires i < |ops| && Succeeded(cfg, ops, i)
    ensures forall p :: p in paths <==> SinceSuccess(cfg, ops, i, p) || p in ops[i].events
    ensures At(cfg, ops, i).result.value.changedFiles == |paths|
    ensures After(cfg, ops[..i + 1]).pending == {}
  {
    hide Pipeline;
    PendingIsSinceSuccess(cfg, ops, i);
    var s := After(cfg, ops[..i]);
    paths := Noted(s, ops[i].now, ops[i].events).pending;
    assert ops[..i + 1][..i] == ops[..i];
  }

  // ----- when a sync succeeds -----------------------------------------------------------

  /** A round that goes on to the next one: a snapshot, a conflict, a re-base that succeeds. */
  predicate GoesOn(a: Attempt) {
    a.snapshot.Some? && a.snapshot.value != [] && a.reply.ConflictThen? && a.reply.rebased.Some?
  }

  /** Round `k` is reached and its push lands. */
  predicate LandsAt(attempts: seq<Attempt>, k: nat)
    requires k < |attempts|
  {
    && (forall j: nat :: j < k ==> GoesOn(attempts[j]))
    && attempts[k].snapshot.Some? && attempts[k].snapshot.value != [] && attempts[k].reply.LandedWith?
  }

  /** The pipeline succeeds exactly when some round lands after nothing but conflicts that could be
      re-based, with that round's root and count, and it has pushed once a round. */
  lemma {:induction false} PipelineLandsIff(expected: Option<Str>, attempts: seq<Attempt>)
    ensures var p := Pipeline(expected, attempts);
            && (p.landed.Some? <==> exists k: nat :: k < |attempts| && LandsAt(attempts, k))
            && (forall k: nat :: k < |attempts| && LandsAt(attempts, k) ==>
                  p.landed == Some((attempts[k].snapshot.value, attempts[k].reply.uploaded))
                  && Pushes(p.log) == k + 1)
    decreases |attempts|
  {
    if attempts != [] {
      var a, rest := attempts[0], attempts[1..];
      var p := Pipeline(expected, attempts);
      assert forall k: nat :: k < |rest| ==> rest[k] == attempts[k + 1];
      if GoesOn(a) {
        PipelineLandsIff(a.reply.rebased, rest);
        var q := Pipeline(a.reply.rebased, rest);
        PushesAfter(Pushed(a.snapshot.value, expected), Rebased(a.reply.rebased.value), q.log);
        LandsLater(attempts);
      } else {
        assert forall k: nat :: k < |attempts| && LandsAt(attempts, k) ==> k == 0;
        if a.snapshot.Some? && a.snapshot.value != [] && a.reply.LandedWith? {
          assert LandsAt(attempts, 0);
          PushesAfter(Pushed(a.snapshot.value, expected), Landed(a.snapshot.value), []);
          assert p.log == [Pushed(a.snapshot.value, expected), Landed(a.snapshot.value)] + [];
        }
      }
    }
  }

  lemma LandsLater(attempts: seq<Attempt>)
    requires attempts != [] && GoesOn(attempts[0])
    ensures var rest := attempts[1..];
            && (forall k: nat :: k < |attempts| && LandsAt(attempts, k) ==> k > 0 && LandsAt(rest, k - 1))
            && (forall k: nat :: k < |rest| && LandsAt(rest, k) ==> LandsAt(attempts, k + 1))
  {
    var rest := attempts[1..];
    assert forall k: nat :: k < |rest| ==> rest[k] == attempts[k + 1];
    forall k: nat | k < |attempts| && LandsAt(attempts, k) ensures k > 0 && LandsAt(rest, k - 1) {
      assert k > 0;
      forall j: nat | j < k - 1 ensures GoesOn(rest[j]) {
        assert rest[j] == attempts[j + 1];
      }
    }
    forall k: nat | k < |rest| && LandsAt(rest, k) ensures LandsAt(attempts, k + 1) {
      forall j: nat | j < k + 1 ensures GoesOn(attempts[j]) {
        assert j > 0 ==> GoesOn(rest[j - 1]);
      }
    }
  }

  lemma PushesAfter(a: Entry, b: Entry, rest: seq<Entry>)
    requires a.Pushed? && !b.Pushed?
    ensures Pushes([a, b] + rest) == 1 + Pushes(rest)
  {
    var l := [a, b] + rest;
    assert l[1..][1..] == rest;
  }

  /** What one call reports. An engine that is off does and reports nothing. Otherwise a call that
      starts the pipeline reports exactly if a round lands: that round's root and count, the time
      between the clock's two readings, and for a sync on demand the count again as its files. */
  lemma CallReports(cfg: Config, ops: seq<Op>, i: nat)
    requires i < |ops| && !ops[i].Seed?
    requires Enough(if ops[i].Tick? then ops[i].script else ops[i].onceScript)
    ensures var out, script := At(cfg, ops, i), if ops[i].Tick? then ops[i].script else ops[i].onceScript;
            && (cfg.disabled || cfg.isAgent ==> out == Out(After(cfg, ops[..i]), None, false, []))
            && (!cfg.disabled && !cfg.isAgent && (ops[i].Once? || out.fired) ==>
                  (out.result.Some? <==> exists k: nat :: k < 3 && LandsAt(script.attempts, k)))
            && (ops[i].Tick? && !out.fired ==> out.result.None?)
            && (out.result.Some? ==>
                  var r := out.result.value;
                  && r.elapsedMs == (if script.startMs <= script.endMs then script.endMs - script.startMs else 0)
                  && (ops[i].Once? ==> r.changedFiles == r.uploaded)
                  && (forall k: nat :: k < 3 && LandsAt(script.attempts, k) ==>
                        r.root == script.attempts[k].snapshot.value && r.uploaded == script.attempts[k].reply.uploaded
                        && Pushes(out.log) == k + 1))
  {
    hide Pipeline, LandsAt;
    var s := After(cfg, ops[..i]);
    match ops[i]
    case Tick(now, events, script) => PipelineLandsIff(s.expected, script.attempts);
    case Once(script) => PipelineLandsIff(s.expected, script.attempts);
  }

  /** A success returns the root of its own last push, which landed and is now the known one. */
  lemma {:induction false} SuccessLanded(expected: Option<Str>, attempts: seq<Attempt>)
    requires Pipeline(expected, attempts).landed.Some?
    ensures var p := Pipeline(expected, attempts);
            && |p.log| >= 2 && p.log[|p.log| - 1] == Landed(p.landed.value.0)
            && p.log[|p.log| - 2].Pushed? && p.log[|p.log| - 2].root == p.landed.value.0
            && p.expected == Some(p.landed.value.0) && p.landed.value.0 != []
    decreases |attempts|
  {
    var a := attempts[0];
    if a.reply.ConflictThen? {
      SuccessLanded(a.reply.rebased, attempts[1..]);
    }
  }
}

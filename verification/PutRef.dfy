/** The server's ref protocol (`put_ref` in src/serve.rs): a request reads the stored ref, decides,
    and writes conditionally on the version it read. Any number of requests interleave between
    their store operations. */
module PutRef {
  import opened Base
  import opened Text

  // ----- the pure decision --------------------------------------------------------------

  /** `Stopped`: a conflicting root shorter than the 8 bytes its conflict ref is named by. */
  datatype Decision = Overwrite | Conflict(shortHash: Str, currentRoot: Str) | Stopped

  function DecidePutRef(current: Option<Str>, expected: Option<Str>, incoming: Str): Decision {
    if expected.None? || current.None? || current == expected then Overwrite
    else if |incoming| < 8 then Stopped
    else Conflict(incoming[..8], current.value)
  }

  /** "@conflict-" */
  const CONFLICT_TAG: Str := [64, 99, 111, 110, 102, 108, 105, 99, 116, 45]

  function ConflictName(workspace: Str, shortHash: Str): Str {
    workspace + CONFLICT_TAG + shortHash
  }

  /** The conflict ref's name: the workspace, the tag, and the first 8 bytes of the root. */
  lemma ConflictNameIs(workspace: Str, shortHash: Str)
    ensures ConflictName(workspace, shortHash) == workspace + Ascii("@conflict-") + shortHash
  {
    assert CONFLICT_TAG == Ascii("@conflict-");
  }

  // ----- the system ---------------------------------------------------------------------

  /** A stored ref object. The store gives every write a version of its own. */
  datatype Obj = Obj(root: Str, version: nat)

  datatype Answer = Accepted | Refused(conflictRef: Str, currentRoot: Str) | NotFound | BadRequest | Aborted

  /** Where a request stands between two store operations. */
  datatype Stage =
    | Received
    | HasRead(seen: Option<Obj>)
    | LostRace
    | Reread(current: Str)
    | Answered(answer: Answer)

  datatype Request = Request(workspace: Str, root: Str, expected: Option<Str>, stage: Stage)

  /** A write of a workspace's own ref by an accepted request: what it held before. */
  datatype Event = Event(req: nat, replaced: Option<Str>)

  /** `checks`: the backend refuses an update whose version is stale. */
  datatype Server = Server(checks: bool, refs: map<Str, Obj>, nextVersion: nat, requests: map<nat, Request>, log: seq<Event>)

  function RootOf(refs: map<Str, Obj>, name: Str): Option<Str> {
    if name in refs then Some(refs[name].root) else None
  }

  function Put(s: Server, name: Str, root: Str): Server {
    s.(refs := s.refs[name := Obj(root, s.nextVersion)], nextVersion := s.nextVersion + 1)
  }

  function Move(s: Server, r: nat, stage: Stage): Server
    requires r in s.requests
  {
    s.(requests := s.requests[r := s.requests[r].(stage := stage)])
  }

  /** The accepting write. */
  function Accept(s: Server, r: nat): Server
    requires r in s.requests
  {
    var q := s.requests[r];
    var event := Event(r, RootOf(s.refs, q.workspace));
    Move(Put(s, q.workspace, q.root).(log := s.log + [event]), r, Answered(Accepted))
  }

  /** `write_conflict_ref_response` */
  function Refuse(s: Server, r: nat, current: Str): Server
    requires r in s.requests && |s.requests[r].root| >= 8
  {
    var q := s.requests[r];
    var name := ConflictName(q.workspace, q.root[..8]);
    Move(Put(s, name, q.root), r, Answered(Refused(name, current)))
  }

  /** One store operation of one request. */
  function Step(s: Server, r: nat): Server {
    if r !in s.requests then s
    else
      var q := s.requests[r];
      match q.stage
      case Received =>
        if q.root == [] then Move(s, r, Answered(BadRequest))
        else if q.expected.None? then Accept(s, r)
        else Move(s, r, HasRead(if q.workspace in s.refs then Some(s.refs[q.workspace]) else None))
      case HasRead(seen) =>
        (match DecidePutRef(if seen.Some? then Some(seen.value.root) else None, q.expected, q.root)
         case Overwrite =>
           if seen.None? || !s.checks then Accept(s, r)
           else if q.workspace in s.refs && s.refs[q.workspace].version == seen.value.version then Accept(s, r)
           else Move(s, r, LostRace)
         case Conflict(_, current) => Refuse(s, r, current)
         case Stopped => Move(s, r, Answered(Aborted)))
      case LostRace =>
        if q.workspace in s.refs then Move(s, r, Reread(s.refs[q.workspace].root)) else Move(s, r, Answered(NotFound))
      case Reread(current) => if |q.root| < 8 then Move(s, r, Answered(Aborted)) else Refuse(s, r, current)
      case Answered(_) => s
  }

  function Run(s: Server, schedule: seq<nat>): Server {
    if schedule == [] then s else Step(Run(s, schedule[..|schedule| - 1]), schedule[|schedule| - 1])
  }

  /** What a store operation of a conditional request does, from what it read before. An expected
      root that was there is replaced as long as its version is the one read, or if the backend
      does not check; another root is never replaced. */
  lemma ConditionalStep(s: Server, r: nat)
    requires r in s.requests && s.requests[r].expected.Some? && s.requests[r].root != []
    ensures var q, after := s.requests[r], Step(s, r);
            var w, answer := q.workspace, after.requests[r].stage;
            var name := if |q.root| >= 8 then w + Ascii("@conflict-") + q.root[..8] else [];
            var refused := current =>
              if |q.root| < 8 then answer == Answered(Aborted) && after.refs == s.refs
              else answer == Answered(Refused(name, current)) && RootOf(after.refs, name) == Some(q.root)
                   && after.refs - {name} == s.refs - {name};
            && (forall k :: k in s.requests && k != r ==> k in after.requests && after.requests[k] == s.requests[k])
            && match q.stage
               case Received => after.refs == s.refs && answer == HasRead(if w in s.refs then Some(s.refs[w]) else None)
               case HasRead(None) => answer == Answered(Accepted) && RootOf(after.refs, w) == Some(q.root) && after.refs - {w} == s.refs - {w}
               case HasRead(Some(o)) =>
                 if o.root != q.expected.value then refused(o.root)
                 else if !s.checks || (w in s.refs && s.refs[w].version == o.version) then
                   answer == Answered(Accepted) && RootOf(after.refs, w) == Some(q.root) && after.refs - {w} == s.refs - {w}
                 else answer == LostRace && after.refs == s.refs
               case LostRace => after.refs == s.refs && answer == if w in s.refs then Reread(s.refs[w].root) else Answered(NotFound)
               case Reread(current) => refused(current)
               case Answered(a) => after == s
  {
    var q := s.requests[r];
    if |q.root| >= 8 {
      ConflictNameIs(q.workspace, q.root[..8]);
      var current := if q.stage.Reread? then q.stage.current
                     else if q.stage.HasRead? && q.stage.seen.Some? then q.stage.seen.value.root else [];
      RefuseIs(s, r, current);
    }
    AcceptIs(s, r);
    hide ConflictName, Ascii, Refuse, Accept;
  }

  lemma RefuseIs(s: Server, r: nat, current: Str)
    requires r in s.requests && |s.requests[r].root| >= 8
    ensures var q, after := s.requests[r], Refuse(s, r, current);
            var name := ConflictName(q.workspace, q.root[..8]);
            && after.requests == s.requests[r := q.(stage := Answered(Refused(name, current)))]
            && RootOf(after.refs, name) == Some(q.root) && after.refs - {name} == s.refs - {name}
  {
    hide ConflictName;
  }

  lemma AcceptIs(s: Server, r: nat)
    requires r in s.requests
    ensures var q, after := s.requests[r], Accept(s, r);
            && after.requests == s.requests[r := q.(stage := Answered(Accepted))]
            && RootOf(after.refs, q.workspace) == Some(q.root) && after.refs - {q.workspace} == s.refs - {q.workspace}
  {
  }

  /** The other requests: an empty root is rejected, and without an expected root the ref is
      written whatever it holds. */
  lemma UnconditionalStep(s: Server, r: nat)
    requires r in s.requests && s.requests[r].stage.Received?
    requires s.requests[r].expected.None? || s.requests[r].root == []
    ensures var q, after := s.requests[r], Step(s, r);
            if q.root == [] then after.refs == s.refs && after.requests[r].stage == Answered(BadRequest)
            else after.requests[r].stage == Answered(Accepted) && RootOf(after.refs, q.workspace) == Some(q.root)
                 && after.refs - {q.workspace} == s.refs - {q.workspace}
  {
    AcceptIs(s, r);
  }

  /** So a request whose expected root stands in its ref is accepted when nobody writes that ref in
      between, whatever other requests do meanwhile to other refs. */
  lemma UncontendedIsAccepted(s: Server, r: nat, others: Server)
    requires r in s.requests && s.requests[r].stage.Received? && s.requests[r].root != []
    requires s.requests[r].expected.Some? && RootOf(s.refs, s.requests[r].workspace) == s.requests[r].expected
    requires r in others.requests && others.requests[r] == Step(s, r).requests[r]
    requires var w := s.requests[r].workspace; w in others.refs && others.refs[w] == s.refs[w]
    ensures var q, after := s.requests[r], Step(others, r);
            after.requests[r].stage == Answered(Accepted) && RootOf(after.refs, q.workspace) == Some(q.root)
  {
    ConditionalStep(s, r);
    ConditionalStep(others, r);
  }

  // ----- what every run keeps -----------------------------------------------------------

  /** An accepted write that named an expected root replaced exactly that root. */
  predicate ReplacedExpected(s: Server, e: Event) {
    e.req in s.requests &&
    (s.requests[e.req].expected.Some? ==> e.replaced == s.requests[e.req].expected)
  }

  /** The requests that compare: they name an expected root, and have one to install. */
  predicate Conditional(q: Request) {
    q.expected.Some? && q.root != []
  }

  ghost predicate RequestOk(s: Server, q: Request) {
    && (Conditional(q) ==> q.workspace in s.refs)
    && (q.stage.HasRead? || q.stage.LostRace? || q.stage.Reread? ==> Conditional(q))
    && (q.stage.HasRead? ==>
          && q.stage.seen.Some?
          && q.stage.seen.value.version < s.nextVersion
          && (s.refs[q.workspace].version == q.stage.seen.value.version ==>
                s.refs[q.workspace].root == q.stage.seen.value.root))
    && q.stage != Answered(NotFound)
  }

  ghost predicate Inv(s: Server) {
    && s.checks
    && (forall name :: name in s.refs ==> s.refs[name].version < s.nextVersion)
    && (forall r :: r in s.requests ==> RequestOk(s, s.requests[r]))
    && (forall e :: e in s.log ==> ReplacedExpected(s, e))
  }

  /** Fresh requests; every version in the store is an old one. */
  ghost predicate Init(s: Server) {
    && s.log == []
    && (forall name :: name in s.refs ==> s.refs[name].version < s.nextVersion)
    && (forall r :: r in s.requests ==> s.requests[r].stage.Received?)
  }

  /** Every ref a conditional request is for is there. */
  ghost predicate RefsExist(s: Server) {
    forall r :: r in s.requests && Conditional(s.requests[r]) ==> s.requests[r].workspace in s.refs
  }

  lemma MoveKeepsInv(s: Server, r: nat, stage: Stage)
    requires Inv(s) && r in s.requests && RequestOk(s, s.requests[r].(stage := stage))
    ensures Inv(Move(s, r, stage))
  {
    var s' := Move(s, r, stage);
    forall x | x in s'.requests ensures RequestOk(s', s'.requests[x]) {
      assert x != r ==> RequestOk(s, s.requests[x]);
    }
    forall e | e in s'.log ensures ReplacedExpected(s', e) {
      assert ReplacedExpected(s, e);
    }
  }

  lemma PutKeepsInv(s: Server, name: Str, root: Str)
    requires Inv(s)
    ensures Inv(Put(s, name, root))
  {
    var s' := Put(s, name, root);
    forall x | x in s'.requests ensures RequestOk(s', s'.requests[x]) {
      assert RequestOk(s, s.requests[x]);
    }
    forall e | e in s'.log ensures ReplacedExpected(s', e) {
      assert ReplacedExpected(s, e);
    }
  }

  lemma AcceptKeepsInv(s: Server, r: nat)
    requires Inv(s) && r in s.requests
    requires s.requests[r].expected.Some? ==> RootOf(s.refs, s.requests[r].workspace) == s.requests[r].expected
    ensures Inv(Accept(s, r))
  {
    var q := s.requests[r];
    var mid := Put(s, q.workspace, q.root);
    PutKeepsInv(s, q.workspace, q.root);
    assert RequestOk(mid, q);
    MoveKeepsInv(mid, r, Answered(Accepted));
    var s' := Accept(s, r);
    forall e | e in s'.log ensures ReplacedExpected(s', e) {
      assert e in s.log ==> ReplacedExpected(s, e);
    }
    forall x | x in s'.requests ensures RequestOk(s', s'.requests[x]) {
      assert RequestOk(Move(mid, r, Answered(Accepted)), s'.requests[x]);
    }
  }

  lemma RefuseKeepsInv(s: Server, r: nat, current: Str)
    requires Inv(s) && r in s.requests && |s.requests[r].root| >= 8
    ensures Inv(Refuse(s, r, current))
  {
    var q := s.requests[r];
    var name := ConflictName(q.workspace, q.root[..8]);
    PutKeepsInv(s, name, q.root);
    var mid := Put(s, name, q.root);
    assert RequestOk(mid, q);
    MoveKeepsInv(mid, r, Answered(Refused(name, current)));
  }

  lemma StepKeepsInv(s: Server, r: nat)
    requires Inv(s)
    ensures Inv(Step(s, r))
  {
    if r in s.requests {
      var q := s.requests[r];
      assert RequestOk(s, q);
      match q.stage {
        case Received =>
          if q.root == [] { MoveKeepsInv(s, r, Answered(BadRequest)); }
          else if q.expected.None? { AcceptKeepsInv(s, r); }
          else { MoveKeepsInv(s, r, HasRead(Some(s.refs[q.workspace]))); }
        case HasRead(seen) =>
          match DecidePutRef(Some(seen.value.root), q.expected, q.root) {
            case Overwrite =>
              if s.refs[q.workspace].version == seen.value.version { AcceptKeepsInv(s, r); }
              else { MoveKeepsInv(s, r, LostRace); }
            case Conflict(_, current) => RefuseKeepsInv(s, r, current);
            case Stopped => MoveKeepsInv(s, r, Answered(Aborted));
          }
        case LostRace => MoveKeepsInv(s, r, Reread(s.refs[q.workspace].root));
        case Reread(current) =>
          if |q.root| < 8 { MoveKeepsInv(s, r, Answered(Aborted)); } else { RefuseKeepsInv(s, r, current); }
        case Answered(_) =>
      }
    }
  }

  lemma {:induction false} RunKeepsInv(s: Server, schedule: seq<nat>)
    requires Init(s) && s.checks && RefsExist(s)
    ensures Inv(Run(s, schedule))
  {
    hide Inv, Step;
    if schedule == [] {
      InitIsInv(s);
    } else {
      RunKeepsInv(s, schedule[..|schedule| - 1]);
      StepKeepsInv(Run(s, schedule[..|schedule| - 1]), schedule[|schedule| - 1]);
    }
  }

  lemma InitIsInv(s: Server)
    requires Init(s) && s.checks && RefsExist(s)
    ensures Inv(s)
  {
  }

  // ----- what becomes of a refused root -------------------------------------------------

  /** What a refused request was told is still so: its root is under that conflict ref. */
  predicate RefusedKept(s: Server, r: nat) {
    r in s.requests && s.requests[r].stage.Answered? && s.requests[r].stage.answer.Refused? ==>
      RootOf(s.refs, s.requests[r].stage.answer.conflictRef) == Some(s.requests[r].root)
  }

  /** The requests that can be refused: conditional ones with a root to name a conflict ref by. */
  predicate Refusable(q: Request) {
    q.expected.Some? && |q.root| >= 8
  }

  function ConflictRefOf(q: Request): Str
    requires |q.root| >= 8
  {
    ConflictName(q.workspace, q.root[..8])
  }

  /** Another request that can write the conflict ref of `q` with another root: its workspace is
      that very name, or it is refused under the same name itself. */
  predicate CanOverwrite(q: Request, other: Request)
    requires |q.root| >= 8
  {
    && other.root != [] && other.root != q.root
    && (other.workspace == ConflictRefOf(q) || (Refusable(other) && ConflictRefOf(other) == ConflictRefOf(q)))
  }

  ghost predicate Overwritten(requests: map<nat, Request>, r: nat)
    requires r in requests && |requests[r].root| >= 8
  {
    exists x :: x in requests && x != r && CanOverwrite(requests[r], requests[x])
  }

  /** Requests keep what they ask for; only conditional ones get past the first stage. */
  ghost predicate SameCalls(a: map<nat, Request>, s: Server) {
    && s.requests.Keys == a.Keys
    && (forall r :: r in a ==> s.requests[r] == a[r].(stage := s.requests[r].stage))
    && (forall r :: r in a && !s.requests[r].stage.Received? && !s.requests[r].stage.Answered? ==> Conditional(a[r]))
    && (forall r :: r in a && s.requests[r].stage.Answered? && s.requests[r].stage.answer.Refused? ==>
          Refusable(a[r]) && s.requests[r].stage.answer.conflictRef == ConflictRefOf(a[r]))
  }

  lemma AnswersMove(s: Server, r: nat)
    requires r in s.requests
    ensures Accept(s, r).requests == s.requests[r := s.requests[r].(stage := Answered(Accepted))]
    ensures |s.requests[r].root| >= 8 ==> forall current ::
              Refuse(s, r, current).requests == s.requests[r := s.requests[r].(stage := Answered(Refused(ConflictRefOf(s.requests[r]), current)))]
  {
  }

  /** A step moves its own request on, past the first stage only when that is conditional, and
      refuses only under the request's own name. */
  lemma StepMoves(s: Server, x: nat) returns (g: Stage)
    requires x in s.requests
    requires !s.requests[x].stage.Received? && !s.requests[x].stage.Answered? ==> Conditional(s.requests[x])
    ensures Step(s, x).requests == s.requests[x := s.requests[x].(stage := g)]
    ensures !g.Received? && !g.Answered? ==> Conditional(s.requests[x])
    ensures g.Answered? && g.answer.Refused? && g != s.requests[x].stage ==>
              Refusable(s.requests[x]) && g.answer.conflictRef == ConflictRefOf(s.requests[x])
  {
    AnswersMove(s, x);
    hide ConflictName, RootOf, Accept, Refuse;
    var t := Step(s, x);
    g := t.requests[x].stage;
    if t == s {
      assert s.requests[x := s.requests[x]] == s.requests;
    }
  }

  lemma StepKeepsCalls(a: map<nat, Request>, s: Server, x: nat)
    requires SameCalls(a, s)
    ensures SameCalls(a, Step(s, x))
  {
    if x in s.requests {
      var g := StepMoves(s, x);
      hide Step, ConflictName;
    }
  }

  /** One step writes one ref at most, with the request's own root. */
  lemma StepWrites(a: map<nat, Request>, s: Server, x: nat, name: Str)
    requires SameCalls(a, s)
    ensures var s' := Step(s, x);
            s'.refs == s.refs || (x in a && a[x].root != [] && !s.requests[x].stage.Answered?
              && (RootOf(s'.refs, name) == RootOf(s.refs, name)
                  || (RootOf(s'.refs, name) == Some(a[x].root)
                      && (a[x].workspace == name || (Refusable(a[x]) && ConflictRefOf(a[x]) == name)))))
  {
  }

  /** A request is refused only once its own root is stored, under the name it is told; the root
      it is told of is not the one it expected, unless it lost a race. */
  lemma RefusedRootIsSaved(s: Server, r: nat)
    requires r in s.requests && !s.requests[r].stage.Answered?
    ensures RefusedKept(Step(s, r), r)
    ensures var s' := Step(s, r);
            r in s'.requests && s'.requests[r].stage.Answered? && s'.requests[r].stage.answer.Refused?
            && s.requests[r].stage.HasRead? ==>
              Some(s'.requests[r].stage.answer.currentRoot) != s.requests[r].expected
  {
    hide ConflictName;
  }

  lemma StepKeepsRefused(a: map<nat, Request>, s: Server, x: nat, r: nat)
    requires SameCalls(a, s) && r in a && RefusedKept(s, r)
    requires Refusable(a[r]) ==> !Overwritten(a, r)
    ensures RefusedKept(Step(s, x), r)
  {
    StepKeepsCalls(a, s, x);
    if x == r {
      if s.requests[r].stage.Answered? {
        assert Step(s, r) == s;
      } else {
        RefusedRootIsSaved(s, r);
      }
    } else if x in a {
      var g := StepMoves(s, x);
      if Refusable(a[r]) {
        StepWrites(a, s, x, ConflictRefOf(a[r]));
        assert !CanOverwrite(a[r], a[x]);
      }
      hide Step, ConflictName;
    }
  }

  /** Over every run: a root that was refused is still under the conflict ref its writer was told
      of, unless some other request can write that ref with another root. */
  lemma {:induction false} RefusedRootsStay(s: Server, schedule: seq<nat>, r: nat)
    requires Init(s) && r in s.requests
    requires Refusable(s.requests[r]) ==> !Overwritten(s.requests, r)
    ensures SameCalls(s.requests, Run(s, schedule)) && RefusedKept(Run(s, schedule), r)
  {
    if schedule == [] {
      assert forall x :: x in s.requests ==> s.requests[x] == s.requests[x].(stage := s.requests[x].stage);
    } else {
      hide SameCalls, Step, Overwritten, RefusedKept;
      var init, x := schedule[..|schedule| - 1], schedule[|schedule| - 1];
      RefusedRootsStay(s, init, r);
      StepKeepsCalls(s.requests, Run(s, init), x);
      StepKeepsRefused(s.requests, Run(s, init), x, r);
    }
  }

  /** A string that is neither of two. */
  function Third(e: Str, f: Str): (c: Str)
    ensures c != e && c != f
  {
    seq(|e| + |f| + 1, i => 97)
  }

  /** `r`'s ref holds neither root that is expected, and nothing else is stored. */
  function LosingStart(checks: bool, requests: map<nat, Request>, r: nat, x: nat): Server
    requires r in requests && x in requests
  {
    var e := if requests[r].expected.Some? then requests[r].expected.value else [];
    var f := if requests[x].expected.Some? then requests[x].expected.value else [];
    Server(checks, map[requests[r].workspace := Obj(Third(e, f), 0)], 1, requests, [])
  }

  lemma NameIsElsewhere(q: Request)
    requires |q.root| >= 8
    ensures ConflictRefOf(q) != q.workspace
  {
    assert |ConflictRefOf(q)| > |q.workspace|;
  }

  lemma SameConflictRef(q: Request, other: Request)
    requires |q.root| >= 8 && |other.root| >= 8 && ConflictRefOf(q) == ConflictRefOf(other)
    ensures q.workspace == other.workspace && q.root[..8] == other.root[..8]
  {
    var n, a, b := |q.workspace|, ConflictRefOf(q), ConflictRefOf(other);
    assert |a| == n + |CONFLICT_TAG| + 8 && |b| == |other.workspace| + |CONFLICT_TAG| + 8;
    assert q.workspace == a[..n] && other.workspace == b[..n];
    assert q.root[..8] == a[n + |CONFLICT_TAG|..] && other.root[..8] == b[n + |CONFLICT_TAG|..];
  }

  /** From that start `r` is refused in two steps. */
  lemma IsRefused(s: Server, r: nat, c: Obj)
    requires r in s.requests && s.requests[r].stage.Received? && Refusable(s.requests[r])
    requires s.requests[r].workspace in s.refs && s.refs[s.requests[r].workspace] == c
    requires Some(c.root) != s.requests[r].expected
    ensures var q := s.requests[r];
            Step(Step(s, r), r) == Move(Put(s, ConflictRefOf(q), q.root), r, Answered(Refused(ConflictRefOf(q), c.root)))
  {
    var q := s.requests[r];
    var mid := Step(s, r);
    assert mid == Move(s, r, HasRead(Some(c)));
    assert mid.requests[r] == q.(stage := HasRead(Some(c)));
    var end := Step(mid, r);
    assert end == Refuse(mid, r, c.root);
    assert end.requests == s.requests[r := q.(stage := Answered(Refused(ConflictRefOf(q), c.root)))];
  }

  /** The failing family: whenever another request can write that ref with another root, there
      is a store and a schedule after which the refused root is gone. */
  lemma OverwriterLosesRoot(checks: bool, requests: map<nat, Request>, r: nat, x: nat) returns (schedule: seq<nat>)
    requires forall y :: y in requests ==> requests[y].stage.Received?
    requires r in requests && x in requests && r != x && Refusable(requests[r]) && CanOverwrite(requests[r], requests[x])
    ensures Init(LosingStart(checks, requests, r, x))
    ensures !RefusedKept(Run(LosingStart(checks, requests, r, x), schedule), r)
  {
    var s := LosingStart(checks, requests, r, x);
    var q, other := requests[r], requests[x];
    var name, c := ConflictRefOf(q), s.refs[q.workspace];
    NameIsElsewhere(q);
    if other.workspace != name {
      SameConflictRef(q, other);
      schedule := [r, r, x, x];
      RunFour(s, r, r, x, x);
      IsRefused(s, r, c);
      IsRefused(Step(Step(s, r), r), x, c);
    } else if other.expected.Some? {
      schedule := [x, r, r, x];
      RunFour(s, x, r, r, x);
      var one := Step(s, x);
      assert one == Move(s, x, HasRead(None));
      IsRefused(one, r, c);
      var three := Step(Step(one, r), r);
      assert three.requests[x].stage == HasRead(None);
      assert Step(three, x) == Accept(three, x);
    } else {
      schedule := [r, r, x, x];
      RunFour(s, r, r, x, x);
      IsRefused(s, r, c);
      var two := Step(Step(s, r), r);
      assert Step(two, x) == Accept(two, x);
      assert Step(Step(two, x), x) == Step(two, x);
    }
  }

  /** For given requests: whatever is stored at the start and however their steps interleave, the
      root of request `r` stays where a refusal says it was saved, exactly when no other request
      can write that ref with another root (or `r` cannot be refused at all). */
  lemma RefusedRootsStayIff(checks: bool, requests: map<nat, Request>, r: nat)
    requires r in requests && forall y :: y in requests ==> requests[y].stage.Received?
    ensures (forall s, schedule :: Init(s) && s.checks == checks && s.requests == requests ==>
               RefusedKept(Run(s, schedule), r))
        <==> (Refusable(requests[r]) ==> !Overwritten(requests, r))
  {
    if Refusable(requests[r]) && Overwritten(requests, r) {
      var x :| x in requests && x != r && CanOverwrite(requests[r], requests[x]);
      var schedule := OverwriterLosesRoot(checks, requests, r, x);
      assert !RefusedKept(Run(LosingStart(checks, requests, r, x), schedule), r);
    } else {
      forall s, schedule | Init(s) && s.checks == checks && s.requests == requests
        ensures RefusedKept(Run(s, schedule), r)
      {
        RefusedRootsStay(s, schedule, r);
      }
    }
  }

  /** A refused request leaves the workspace's own ref alone. */
  lemma RefusalWritesElsewhere(s: Server, r: nat)
    requires r in s.requests
    ensures var s' := Step(s, r); var w := s.requests[r].workspace;
            s'.log == s.log ==> RootOf(s'.refs, w) == RootOf(s.refs, w)
  {
    var w := s.requests[r].workspace;
    assert forall h :: |ConflictName(w, h)| > |w|;
  }

  ghost predicate AllExpected(s: Server) {
    forall e :: e in s.log ==> ReplacedExpected(s, e)
  }

  /** The guarantee for a kind of setting: every run of it, from any initial state. */
  ghost predicate Safe(checks: bool, refsExist: bool) {
    forall s, schedule ::
      Init(s) && s.checks == checks && (refsExist ==> RefsExist(s)) ==> AllExpected(Run(s, schedule))
  }

  /** Two requests for one workspace, with one expected root, both sent before either reads. */
  function TwoWriters(checks: bool, refs: map<Str, Obj>, w: Str, e: Str, a: Str, b: Str): Server {
    Server(checks, refs, 1, map[0 := Request(w, a, Some(e), Received), 1 := Request(w, b, Some(e), Received)], [])
  }

  lemma {:induction false} RunFour(s: Server, a: nat, b: nat, c: nat, d: nat)
    ensures Run(s, [a, b, c, d]) == Step(Step(Step(Step(s, a), b), c), d)
  {
    var l := [a, b, c, d];
    assert l[..3] == [a, b, c] && [a, b, c][..2] == [a, b] && [a, b][..1] == [a];
    assert Run(s, [a]) == Step(Run(s, [a][..0]), a);
    assert Run(s, [a, b]) == Step(Run(s, [a, b][..1]), b);
    assert Run(s, [a, b, c]) == Step(Run(s, [a, b, c][..2]), c);
  }

  /** Both read, both write: unless versions are checked on an existing ref, the second write
      replaces the first one's root though it expected another. */
  lemma SecondWriterReplacesFirst(checks: bool, refs: map<Str, Obj>, w: Str, e: Str, a: Str, b: Str)
    requires |a| >= 8 && |b| >= 8 && a != e
    requires w !in refs || (!checks && refs[w].root == e)
    ensures var end := Run(TwoWriters(checks, refs, w, e, a, b), [0, 1, 0, 1]);
            |end.log| == 2 && end.log[1] == Event(1, Some(a)) && !AllExpected(end)
  {
    var s := TwoWriters(checks, refs, w, e, a, b);
    RunFour(s, 0, 1, 0, 1);
    var seen := if w in refs then Some(refs[w]) else None;
    var one := Step(s, 0);
    assert one == s.(requests := s.requests[0 := Request(w, a, Some(e), HasRead(seen))]);
    var two := Step(one, 1);
    assert two == s.(requests := map[0 := Request(w, a, Some(e), HasRead(seen)), 1 := Request(w, b, Some(e), HasRead(seen))]);
    var three := Step(two, 0);
    assert three.refs == refs[w := Obj(a, 1)] && three.log == [Event(0, RootOf(refs, w))];
    assert three.requests[1] == two.requests[1];
    var four := Step(three, 1);
    assert four.log == three.log + [Event(1, Some(a))];
    assert four.log[1] in four.log && four.requests[1].expected == Some(e);
  }

  /** The compare-and-swap promise holds exactly for version-checking backends and refs that
      already exist. */
  lemma SafeIff(checks: bool, refsExist: bool)
    ensures Safe(checks, refsExist) <==> checks && refsExist
  {
    if checks && refsExist {
      forall s, schedule | Init(s) && s.checks == checks && RefsExist(s) ensures AllExpected(Run(s, schedule)) {
        RunKeepsInv(s, schedule);
      }
    } else {
      var w: Str, e: Str, a: Str := [119], [101], [97, 97, 97, 97, 97, 97, 97, 97];
      var refs: map<Str, Obj> := if refsExist then map[w := Obj(e, 0)] else map[];
      SecondWriterReplacesFirst(checks, refs, w, e, a, a);
      var s := TwoWriters(checks, refs, w, e, a, a);
      assert Init(s) && (refsExist ==> RefsExist(s));
      assert !AllExpected(Run(s, [0, 1, 0, 1]));
    }
  }

  /** And for one given server with version checks: every run of it keeps the promise exactly
      when the ref of each conditional request is there from the start. */
  lemma SafeHereIff(s: Server)
    requires Init(s) && s.checks
    ensures (forall schedule :: AllExpected(Run(s, schedule))) <==> RefsExist(s)
  {
    if RefsExist(s) {
      forall schedule ensures AllExpected(Run(s, schedule)) {
        RunKeepsInv(s, schedule);
      }
    } else {
      var r :| r in s.requests && Conditional(s.requests[r]) && s.requests[r].workspace !in s.refs;
      FirstPushReplacesNothing(s, r);
    }
  }

  lemma FirstPushReplacesNothing(s: Server, r: nat)
    requires Init(s) && r in s.requests && Conditional(s.requests[r]) && s.requests[r].workspace !in s.refs
    ensures !AllExpected(Run(s, [r, r]))
  {
    var l := [r, r];
    assert l[..1] == [r] && [r][..0] == [];
    assert Run(s, [r]) == Step(Run(s, [r][..0]), r);
    var one := Step(s, r);
    assert one == Move(s, r, HasRead(None));
    var two := Step(one, r);
    assert two == Accept(one, r);
    assert two.log == [Event(r, None)];
    assert two.log[0] in two.log;
  }

  // ----- the handler itself -------------------------------------------------------------

  datatype UpdateResult = Updated | StaleVersion | NotImplemented

  /** The object store the handler talks to. */
  class ObjectStore {
    const checks: bool
    var refs: map<Str, Obj>
    var nextVersion: nat

    constructor (checks: bool)
      ensures this.checks == checks && refs == map[] && VersionsOld()
    {
      this.checks := checks;
      refs, nextVersion := map[], 0;
    }

    ghost predicate VersionsOld()
      reads this
    {
      forall name :: name in refs ==> refs[name].version < nextVersion
    }

    method PutObject(name: Str, root: Str)
      requires VersionsOld()
      modifies this
      ensures VersionsOld() && nextVersion == old(nextVersion) + 1
      ensures refs == old(refs)[name := Obj(root, old(nextVersion))]
    {
      refs, nextVersion := refs[name := Obj(root, nextVersion)], nextVersion + 1;
    }

    /** `PutMode::Update` */
    method UpdateObject(name: Str, root: Str, version: nat) returns (r: UpdateResult)
      requires VersionsOld()
      modifies this
      ensures VersionsOld() && nextVersion >= old(nextVersion)
      ensures r.NotImplemented? <==> !checks
      ensures r.Updated? <==> checks && name in old(refs) && old(refs)[name].version == version
      ensures refs == if r.Updated? then old(refs)[name := Obj(root, old(nextVersion))] else old(refs)
    {
      if !checks {
        return NotImplemented;
      }
      if name !in refs || refs[name].version != version {
        return StaleVersion;
      }
      PutObject(name, root);
      return Updated;
    }

    /** Other requests write what they like; nobody deletes a ref. */
    method OthersWrite(writes: seq<(Str, Str)>)
      requires VersionsOld()
      modifies this
      ensures VersionsOld() && nextVersion >= old(nextVersion)
      ensures forall name :: name in old(refs) ==>
                name in refs && (refs[name] == old(refs)[name] || refs[name].version >= old(nextVersion))
    {
      var k := 0;
      while k < |writes|
        invariant VersionsOld() && nextVersion >= old(nextVersion)
        invariant forall name :: name in old(refs) ==>
                    name in refs && (refs[name] == old(refs)[name] || refs[name].version >= old(nextVersion))
      {
        PutObject(writes[k].0, writes[k].1);
        k := k + 1;
      }
    }
  }

  /** `put_ref`, with other requests writing before its second and third store operations.
      `before` is the store as the answering write found it. */
  method HandlePutRef(store: ObjectStore, workspace: Str, root: Str, expected: Option<Str>,
                      turn1: seq<(Str, Str)>, turn2: seq<(Str, Str)>, turn3: seq<(Str, Str)>)
    returns (answer: Answer, ghost before: map<Str, Obj>)
    requires store.VersionsOld()
    modifies store
    ensures store.VersionsOld()
    ensures answer == BadRequest <==> root == []
    ensures root != [] && (expected.None? || workspace !in old(store.refs)) ==> answer == Accepted
    ensures root != [] && expected.Some? && workspace in old(store.refs) ==>
              var seen := old(store.refs)[workspace].root;
              && (seen != expected.value ==>
                    answer == if |root| < 8 then Aborted else Refused(ConflictName(workspace, root[..8]), seen))
              && (seen == expected.value && !store.checks ==> answer == Accepted)
              && (answer == Aborted ==> |root| < 8)
    ensures answer.Accepted? ==> RootOf(store.refs, workspace) == Some(root) && store.refs - {workspace} == before - {workspace}
    ensures answer.Accepted? && expected.Some? && store.checks && workspace in old(store.refs) ==>
              RootOf(before, workspace) == expected
    ensures answer.Refused? ==>
              && |root| >= 8 && answer.conflictRef == ConflictName(workspace, root[..8])
              && RootOf(store.refs, answer.conflictRef) == Some(root)
              && store.refs - {answer.conflictRef} == before - {answer.conflictRef}
    ensures answer.Refused? || answer.Aborted? ==> expected.Some? && workspace in old(store.refs)
    ensures (answer.Refused? || answer.Aborted?) && RootOf(old(store.refs), workspace) == expected ==>
              store.checks && workspace in before && before[workspace] != old(store.refs)[workspace]
    ensures answer != NotFound
    ensures !answer.Accepted? && !answer.Refused? ==> store.refs == before
  {
    before := store.refs;
    if root == [] {
      return BadRequest, before;
    }
    if expected.None? {
      store.PutObject(workspace, root);
      return Accepted, before;
    }
    var current := if workspace in store.refs then Some(store.refs[workspace]) else None;
    store.OthersWrite(turn1);
    before := store.refs;
    match DecidePutRef(if current.Some? then Some(current.value.root) else None, expected, root) {
      case Stopped =>
        return Aborted, before;
      case Conflict(shortHash, currentRoot) =>
        var name := ConflictName(workspace, shortHash);
        store.PutObject(name, root);
        return Refused(name, currentRoot), before;
      case Overwrite =>
        if current.None? {
          store.PutObject(workspace, root);
          return Accepted, before;
        }
        var result := store.UpdateObject(workspace, root, current.value.version);
        match result {
          case Updated =>
            return Accepted, before;
          case NotImplemented =>
            store.OthersWrite(turn2);
            before := store.refs;
            store.PutObject(workspace, root);
            return Accepted, before;
          case StaleVersion =>
            store.OthersWrite(turn2);
            before := store.refs;
            if workspace !in store.refs {
              return NotFound, before;
            }
            var now := store.refs[workspace].root;
            store.OthersWrite(turn3);
            before := store.refs;
            if |root| < 8 {
              return Aborted, before;
            }
            var name := ConflictName(workspace, root[..8]);
            store.PutObject(name, root);
            return Refused(name, now), before;
        }
    }
  }
}

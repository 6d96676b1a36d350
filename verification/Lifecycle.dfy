/** The guest pool and the life of any number of concurrent requests, one shared
    action at a time: getOrCreateGuest, HandleRequest and HandleResponse of
    handler/middleware.go, Close of handler/state.go and ServeHTTP of
    handler/nethttp/middleware.go. Actions of different requests interleave
    freely; pool hits and misses, discarded instances, finalizers, traps and
    failing instantiation are all choices of the environment. */
module Lifecycle {
  import opened Abi
  import opened GuestLog
  import CounterGuest

  type InstanceId = nat

  /** Where a deferred Close goes on to. */
  datatype Resume = ToCaller | ToEnd

  datatype Pc =
    | Start              // in HandleRequest, before getOrCreateGuest
    | Checked            // has a guest
    | InRequest          // the guest runs handle_request
    | RequestDone(ret: Ret)
    | Clearing(resume: Resume)  // in Close, between putPool(r.g) and r.g = nil
    | Back               // HandleRequest returned to ServeHTTP
    | Next               // the next handler runs
    | InResponse         // the guest runs handle_response
    | ResponseDone(ret: Ret)
    | Ended

  /** g is the field of requestState; took is the guest it was created with. */
  datatype Request = Request(pc: Pc, g: Option<InstanceId>, took: Option<InstanceId>, ctxNext: uint64)

  /** `finalized` are the instances a finalizer has closed; `down` says that the
      runtime is closed, and every instance with it. The logs record what happened
      to each instance; no action depends on them. */
  datatype System = System(
    pool: multiset<InstanceId>,
    requests: map<RequestId, Request>,
    finalized: set<InstanceId>,
    down: bool,
    created: nat,
    logs: map<InstanceId, seq<Event>>)

  datatype Action =
    | Arrive(r: RequestId)
    | Hit(r: RequestId, id: InstanceId)
    | Miss(r: RequestId)
    | CreateFails(r: RequestId)
    | EnterRequest(r: RequestId)
    | LeaveRequest(r: RequestId, ret: Ret)
    | DeferRequest(r: RequestId)
    | ClearGuest(r: RequestId)
    | Dispatch(r: RequestId)
    | EnterResponse(r: RequestId)
    | LeaveResponse(r: RequestId, ret: Ret)
    | DeferResponse(r: RequestId)
    | RepeatResponse(r: RequestId)
    | PoolDrops(id: InstanceId)
    | Finalizes(id: InstanceId)

  /** NewMiddleware eagerly creates one instance and puts it into the pool. */
  function Initial(): System {
    System(multiset{0}, map[], {}, false, 1, map[0 := []])
  }

  predicate At(s: System, r: RequestId, pc: Pc) {
    r in s.requests && s.requests[r].pc == pc
  }

  /** The module of the instance is closed. */
  predicate IsClosed(s: System, id: InstanceId) {
    id in s.finalized || (s.down && id < s.created)
  }

  /** A request state that is still reachable refers to the instance. */
  predicate Referenced(s: System, id: InstanceId) {
    exists r :: r in s.requests && s.requests[r].pc != Ended && s.requests[r].g == Some(id)
  }

  predicate Enabled(s: System, a: Action) {
    match a
    case Arrive(r) => r !in s.requests
    case Hit(r, id) => At(s, r, Start) && id in s.pool
    case Miss(r) => At(s, r, Start) && !s.down
    case CreateFails(r) => At(s, r, Start)
    case EnterRequest(r) => At(s, r, Checked)
    case LeaveRequest(r, _) => At(s, r, InRequest)
    case DeferRequest(r) => r in s.requests && s.requests[r].pc.RequestDone?
    case ClearGuest(r) => r in s.requests && s.requests[r].pc.Clearing?
    case Dispatch(r) => At(s, r, Back)
    case EnterResponse(r) => At(s, r, Next)
    case LeaveResponse(r, _) => At(s, r, InResponse)
    case DeferResponse(r) => r in s.requests && s.requests[r].pc.ResponseDone?
    case RepeatResponse(r) => At(s, r, Ended) && Lo(s.requests[r].ctxNext) != 0
    case PoolDrops(id) => id in s.pool
    case Finalizes(id) => id < s.created && id !in s.pool && id !in s.finalized && !Referenced(s, id)
  }

  function With(s: System, r: RequestId, q: Request): System {
    s.(requests := s.requests[r := q])
  }

  /** `if g := r.g; g != nil { r.putPool(r.g) }`, the first half of Close. */
  function Put(s: System, r: RequestId, resume: Resume): System
    requires r in s.requests
  {
    var q := s.requests[r];
    var t := With(s, r, q.(pc := Clearing(resume)));
    if q.g.Some? then t.(pool := s.pool + multiset{q.g.value}) else t
  }

  /** HandleResponse up to the guest call; a nil guest panics instead, and the
      deferred Close then has nothing to put back. */
  function CallGuestResponse(s: System, r: RequestId): System
    requires r in s.requests
  {
    var q := s.requests[r];
    With(s, r, q.(pc := if q.g.None? then Ended else InResponse))
  }

  function Act(s: System, a: Action): System
    requires Enabled(s, a)
  {
    match a
    case Arrive(r) => With(s, r, Request(Start, None, None, 0))
    case Hit(r, id) => With(s.(pool := s.pool - multiset{id}), r, Request(Checked, Some(id), Some(id), 0))
    case Miss(r) => With(s.(created := s.created + 1), r, Request(Checked, Some(s.created), Some(s.created), 0))
    case CreateFails(r) => With(s.(down := true), r, s.requests[r].(pc := Ended))
    case EnterRequest(r) => With(s, r, s.requests[r].(pc := InRequest))
    case LeaveRequest(r, ret) => With(s, r, s.requests[r].(pc := RequestDone(ret), ctxNext := CtxNext(ret)))
    case DeferRequest(r) =>
      if s.requests[r].ctxNext != 0 then With(s, r, s.requests[r].(pc := Back)) else Put(s, r, ToCaller)
    case ClearGuest(r) =>
      var q := s.requests[r];
      With(s, r, q.(g := None, pc := if q.pc.resume == ToCaller then Back else Ended))
    case Dispatch(r) =>
      var q := s.requests[r];
      With(s, r, q.(pc := if Lo(q.ctxNext) == 0 then Ended else Next))
    case EnterResponse(r) => CallGuestResponse(s, r)
    case LeaveResponse(r, ret) => With(s, r, s.requests[r].(pc := ResponseDone(ret)))
    case DeferResponse(r) => Put(s, r, ToEnd)
    case RepeatResponse(r) => CallGuestResponse(s, r)
    case PoolDrops(id) => s.(pool := s.pool - multiset{id})
    case Finalizes(id) => s.(finalized := s.finalized + {id})
  }

  /** What an action does to an instance. */
  datatype Touch = Nothing | Touch(id: InstanceId, e: Event)

  function OnGuest(s: System, r: RequestId, e: Event): Touch
    requires r in s.requests
  {
    if s.requests[r].g.Some? then Touch(s.requests[r].g.value, e) else Nothing
  }

  function Touches(s: System, a: Action): Touch
    requires Enabled(s, a)
  {
    match a
    case Hit(r, id) => Touch(id, Take(r))
    case Miss(r) => Touch(s.created, Take(r))
    case EnterRequest(r) => OnGuest(s, r, CallRequest(r))
    case LeaveRequest(r, ret) => OnGuest(s, r, RequestRet(r, ret))
    case DeferRequest(r) => if s.requests[r].ctxNext != 0 then Nothing else OnGuest(s, r, Give(r))
    case EnterResponse(r) => OnGuest(s, r, CallResponse(r, Hi(s.requests[r].ctxNext)))
    case RepeatResponse(r) => OnGuest(s, r, CallResponse(r, Hi(s.requests[r].ctxNext)))
    case LeaveResponse(r, ret) => OnGuest(s, r, ResponseRet(r, ret))
    case DeferResponse(r) => OnGuest(s, r, Give(r))
    case PoolDrops(id) => Touch(id, Drop)
    case Finalizes(id) => Touch(id, Finalize)
    case _ => Nothing
  }

  function Record(logs: map<InstanceId, seq<Event>>, touch: Touch): map<InstanceId, seq<Event>> {
    if touch.Nothing? then logs
    else logs[touch.id := (if touch.id in logs then logs[touch.id] else []) + [touch.e]]
  }

  function Apply(s: System, a: Action): System
    requires Enabled(s, a)
  {
    Act(s, a).(logs := Record(s.logs, Touches(s, a)))
  }

  /** The system after a run, or None if some action was not possible. */
  function Run(s: System, run: seq<Action>): Option<System> {
    if run == [] then Some(s)
    else match Run(s, run[..|run| - 1])
         case None => None
         case Some(t) => if Enabled(t, run[|run| - 1]) then Some(Apply(t, run[|run| - 1])) else None
  }

  ghost predicate Reachable(s: System) {
    exists run :: Run(Initial(), run) == Some(s)
  }

  // ---- The invariant over pool, requests and phases ----

  type Phases = map<InstanceId, Phase>

  function PhaseIn(ph: Phases, id: InstanceId): Phase {
    if id in ph then ph[id] else Free
  }

  ghost predicate PoolOk(s: System, ph: Phases) {
    && (forall id: nat :: id in ph <==> id < s.created)
    && (forall id :: id in ph ==> s.pool[id] == if ph[id] == Free then 1 else 0)
    && (forall id :: id in s.pool ==> id in ph)
    && (forall id :: id in s.finalized <==> id in ph && ph[id] == Closed)
  }

  /** What a request's position says about the instance it refers to. */
  ghost predicate RequestOk(r: RequestId, q: Request, ph: Phases) {
    && (q.g.Some? ==> q.g == q.took) && (q.took.Some? ==> q.took.value in ph)
    && match q.pc
       case Start => q.g == None && q.took == None && q.ctxNext == 0
       case Checked => q.g.Some? && PhaseIn(ph, q.g.value) == Taken(r) && q.ctxNext == 0
       case InRequest => q.g.Some? && PhaseIn(ph, q.g.value) == Running(r) && q.ctxNext == 0
       case RequestDone(ret) =>
         q.g.Some? && q.ctxNext == CtxNext(ret) && PhaseIn(ph, q.g.value) == Judged(r, q.ctxNext)
       case Clearing(resume) => q.g.Some? && (if resume == ToCaller then q.ctxNext == 0 else Lo(q.ctxNext) != 0)
       case Back =>
         && q.took.Some?
         && (q.ctxNext == 0 <==> q.g.None?)
         && (q.g.Some? ==> PhaseIn(ph, q.g.value) == Judged(r, q.ctxNext))
       case Next => q.g.Some? && Lo(q.ctxNext) != 0 && PhaseIn(ph, q.g.value) == Judged(r, q.ctxNext)
       case InResponse => q.g.Some? && Lo(q.ctxNext) != 0 && PhaseIn(ph, q.g.value) == Answering(r)
       case ResponseDone(_) => q.g.Some? && Lo(q.ctxNext) != 0 && PhaseIn(ph, q.g.value) == Answered(r)
       case Ended => (q.g.Some? <==> Leaks(q.ctxNext)) && (q.took.None? ==> q.ctxNext == 0)
  }

  /** An instance some request has the use of is one that request refers to. */
  ghost predicate OwnerOk(s: System, ph: Phases, id: InstanceId)
    requires id in ph
  {
    var owner := Owner(ph[id]);
    owner.Some? ==>
      && owner.value in s.requests && s.requests[owner.value].g == Some(id)
      && !s.requests[owner.value].pc.Clearing?
      && (s.requests[owner.value].pc == Ended ==> ph[id] == Judged(owner.value, s.requests[owner.value].ctxNext))
  }

  ghost predicate Core(s: System, ph: Phases) {
    && PoolOk(s, ph)
    && (forall r :: r in s.requests ==> RequestOk(r, s.requests[r], ph))
    && (forall id :: id in ph ==> OwnerOk(s, ph, id))
  }

  /** The event is legal in the phase its instance is in. */
  predicate Legal(ph: Phases, touch: Touch) {
    touch.Touch? ==> Advance(PhaseIn(ph, touch.id), touch.e).Some?
  }

  function After(ph: Phases, touch: Touch): Phases
    requires Legal(ph, touch)
  {
    if touch.Nothing? then ph else ph[touch.id := Advance(PhaseIn(ph, touch.id), touch.e).value]
  }

  // ---- Every action keeps it ----

  /** Request r changes to q, and the only instance to change phase is one that is
      free, or that r owns; r owned no other. */
  lemma RequestMoves(s: System, t: System, ph: Phases, ph': Phases, r: RequestId, q: Request, id: InstanceId)
    requires Core(s, ph) && PoolOk(t, ph') && t.requests == s.requests[r := q]
    requires ph.Keys <= ph'.Keys && forall x :: x in ph' && x != id ==> x in ph && ph'[x] == ph[x]
    requires Owner(PhaseIn(ph, id)) in {None, Some(r)}
    requires r in s.requests ==> s.requests[r].g in {None, Some(id)}
    requires RequestOk(r, q, ph') && (id in ph' ==> OwnerOk(t, ph', id))
    ensures Core(t, ph')
  {
    forall x | x in t.requests && x != r
      ensures RequestOk(x, t.requests[x], ph')
    {
      assert RequestOk(x, s.requests[x], ph);
    }
    forall x | x in ph' && x != id
      ensures OwnerOk(t, ph', x)
    {
      assert OwnerOk(s, ph, x);
    }
  }

  /** What request r is up to fits the instance an action of it touches. */
  lemma TouchIsLegal(s: System, ph: Phases, a: Action)
    requires Core(s, ph) && Enabled(s, a) && Touches(s, a).Touch?
    requires !a.PoolDrops? && !a.Finalizes?
    ensures Legal(ph, Touches(s, a))
    ensures Owner(PhaseIn(ph, Touches(s, a).id)) in {None, Some(a.r)}
    ensures s.requests[a.r].g in {None, Some(Touches(s, a).id)}
    ensures Touches(s, a).id in ph || a.Miss?
  {
    assert RequestOk(a.r, s.requests[a.r], ph);
  }

  lemma PoolStep(s: System, t: System, ph: Phases, touch: Touch)
    requires PoolOk(s, ph) && touch.Touch? && Legal(ph, touch)
    requires t.created == s.created + (if touch.id in ph then 0 else 1) && touch.id < t.created
    requires forall x :: x != touch.id ==> t.pool[x] == s.pool[x]
    requires t.pool[touch.id] == if After(ph, touch)[touch.id] == Free then 1 else 0
    requires t.finalized == if touch.e == Finalize then s.finalized + {touch.id} else s.finalized
    ensures PoolOk(t, After(ph, touch))
  {
    var id := touch.id;
    forall x | x in t.pool
      ensures x in After(ph, touch)
    {
      assert t.pool[x] > 0;
      assert x != id ==> x in s.pool;
    }
    assert id !in s.finalized;
  }

  /** The instance moves between the pool and a request, or out of the pool. */
  predicate MovesInstance(a: Action) {
    a.Hit? || a.PoolDrops? || a.DeferRequest? || a.DeferResponse?
  }

  lemma TakingKeepsPool(s: System, ph: Phases, a: Action)
    requires PoolOk(s, ph) && Enabled(s, a) && (a.Hit? || a.PoolDrops?)
    requires Touches(s, a).Touch? && Legal(ph, Touches(s, a)) && Touches(s, a).id in ph
    ensures PoolOk(Act(s, a), After(ph, Touches(s, a)))
  {
    var t, id := Act(s, a), Touches(s, a).id;
    assert t.pool == s.pool - multiset{id};
    assert ph[id] == Free && s.pool[id] == 1;
    PoolStep(s, t, ph, Touches(s, a));
  }

  lemma GivingKeepsPool(s: System, ph: Phases, a: Action)
    requires PoolOk(s, ph) && Enabled(s, a) && (a.DeferRequest? || a.DeferResponse?)
    requires Touches(s, a).Touch? && Legal(ph, Touches(s, a)) && Touches(s, a).id in ph
    ensures PoolOk(Act(s, a), After(ph, Touches(s, a)))
  {
    var t, id := Act(s, a), Touches(s, a).id;
    assert t.pool == s.pool + multiset{id};
    assert ph[id] != Free && s.pool[id] == 0;
    PoolStep(s, t, ph, Touches(s, a));
  }

  lemma CallKeepsPool(s: System, ph: Phases, a: Action)
    requires PoolOk(s, ph) && Enabled(s, a) && !MovesInstance(a) && Touches(s, a).Touch? && Legal(ph, Touches(s, a))
    requires Touches(s, a).id in ph && !a.Miss?
    ensures PoolOk(Act(s, a), After(ph, Touches(s, a)))
  {
    var t, touch := Act(s, a), Touches(s, a);
    assert t.pool == s.pool && t.created == s.created;
    assert ph[touch.id] != Free;
    PoolStep(s, t, ph, touch);
  }

  lemma TouchKeepsPool(s: System, ph: Phases, a: Action)
    requires PoolOk(s, ph) && Enabled(s, a) && Touches(s, a).Touch? && Legal(ph, Touches(s, a))
    requires Touches(s, a).id in ph && !a.Miss?
    ensures PoolOk(Act(s, a), After(ph, Touches(s, a)))
  {
    if a.Hit? || a.PoolDrops? {
      TakingKeepsPool(s, ph, a);
    } else if MovesInstance(a) {
      GivingKeepsPool(s, ph, a);
    } else {
      CallKeepsPool(s, ph, a);
    }
  }

  lemma MissKeepsCore(s: System, ph: Phases, a: Action)
    requires Core(s, ph) && Enabled(s, a) && a.Miss?
    ensures Legal(ph, Touches(s, a)) && Core(Act(s, a), After(ph, Touches(s, a)))
  {
    var t := Act(s, a);
    assert RequestOk(a.r, s.requests[a.r], ph);
    assert s.created !in s.pool;
    PoolStep(s, t, ph, Touches(s, a));
    RequestMoves(s, t, ph, After(ph, Touches(s, a)), a.r, t.requests[a.r], s.created);
  }

  /** Actions of a request that touch an existing instance. */
  lemma TouchKeepsCore(s: System, ph: Phases, a: Action)
    requires Core(s, ph) && Enabled(s, a) && Touches(s, a).Touch?
    requires !a.PoolDrops? && !a.Finalizes? && !a.Miss?
    ensures Legal(ph, Touches(s, a)) && Core(Act(s, a), After(ph, Touches(s, a)))
  {
    TouchIsLegal(s, ph, a);
    TouchKeepsPool(s, ph, a);
    if a.Hit? {
      TakeFits(s, ph, a);
    } else if MovesInstance(a) {
      GiveFits(s, ph, a);
    } else if a.LeaveRequest? || a.LeaveResponse? {
      LeaveFits(s, ph, a);
    } else {
      EnterFits(s, ph, a);
    }
    var t := Act(s, a);
    RequestMoves(s, t, ph, After(ph, Touches(s, a)), a.r, t.requests[a.r], Touches(s, a).id);
  }

  /** The request's new position fits the instance's new phase when it takes one from the pool, */
  lemma TakeFits(s: System, ph: Phases, a: Action)
    requires Core(s, ph) && Enabled(s, a) && Touches(s, a).Touch? && Legal(ph, Touches(s, a))
    requires a.Hit? && Touches(s, a).id in ph
    ensures Act(s, a).requests == s.requests[a.r := Act(s, a).requests[a.r]]
    ensures RequestOk(a.r, Act(s, a).requests[a.r], After(ph, Touches(s, a)))
    ensures OwnerOk(Act(s, a), After(ph, Touches(s, a)), Touches(s, a).id)
  {
    assert RequestOk(a.r, s.requests[a.r], ph);
    assert OwnerOk(s, ph, Touches(s, a).id);
  }

  /** when it gives it back, */
  lemma GiveFits(s: System, ph: Phases, a: Action)
    requires Core(s, ph) && Enabled(s, a) && Touches(s, a).Touch? && Legal(ph, Touches(s, a))
    requires (a.DeferRequest? || a.DeferResponse?) && Touches(s, a).id in ph
    ensures Act(s, a).requests == s.requests[a.r := Act(s, a).requests[a.r]]
    ensures RequestOk(a.r, Act(s, a).requests[a.r], After(ph, Touches(s, a)))
    ensures OwnerOk(Act(s, a), After(ph, Touches(s, a)), Touches(s, a).id)
  {
    assert RequestOk(a.r, s.requests[a.r], ph);
    assert OwnerOk(s, ph, Touches(s, a).id);
  }

  /** when a guest call begins, */
  lemma EnterFits(s: System, ph: Phases, a: Action)
    requires Core(s, ph) && Enabled(s, a) && Touches(s, a).Touch? && Legal(ph, Touches(s, a))
    requires (a.EnterRequest? || a.EnterResponse? || a.RepeatResponse?) && Touches(s, a).id in ph
    ensures Act(s, a).requests == s.requests[a.r := Act(s, a).requests[a.r]]
    ensures RequestOk(a.r, Act(s, a).requests[a.r], After(ph, Touches(s, a)))
    ensures OwnerOk(Act(s, a), After(ph, Touches(s, a)), Touches(s, a).id)
  {
    assert RequestOk(a.r, s.requests[a.r], ph);
    assert OwnerOk(s, ph, Touches(s, a).id);
  }

  /** and when it ends. */
  lemma LeaveFits(s: System, ph: Phases, a: Action)
    requires Core(s, ph) && Enabled(s, a) && Touches(s, a).Touch? && Legal(ph, Touches(s, a))
    requires (a.LeaveRequest? || a.LeaveResponse?) && Touches(s, a).id in ph
    ensures Act(s, a).requests == s.requests[a.r := Act(s, a).requests[a.r]]
    ensures RequestOk(a.r, Act(s, a).requests[a.r], After(ph, Touches(s, a)))
    ensures OwnerOk(Act(s, a), After(ph, Touches(s, a)), Touches(s, a).id)
  {
    assert RequestOk(a.r, s.requests[a.r], ph);
    assert OwnerOk(s, ph, Touches(s, a).id);
  }

  /** Actions of a request that touch no instance. */
  lemma MoveFits(s: System, ph: Phases, a: Action)
    requires Core(s, ph) && Enabled(s, a) && Touches(s, a).Nothing?
    ensures Act(s, a).requests == s.requests[a.r := Act(s, a).requests[a.r]]
    ensures PoolOk(Act(s, a), ph) && RequestOk(a.r, Act(s, a).requests[a.r], ph)
  {
    if a.r in s.requests {
      assert RequestOk(a.r, s.requests[a.r], ph);
    }
  }

  lemma MoveKeepsCore(s: System, ph: Phases, a: Action)
    requires Core(s, ph) && Enabled(s, a) && Touches(s, a).Nothing?
    ensures Core(Act(s, a), ph)
  {
    var r, t := a.r, Act(s, a);
    MoveFits(s, ph, a);
    if r in s.requests {
      assert RequestOk(r, s.requests[r], ph);
    }
    var id := if r in s.requests && s.requests[r].g.Some? then s.requests[r].g.value else s.created;
    assert id in ph ==> OwnerOk(s, ph, id);
    if Owner(PhaseIn(ph, id)) in {None, Some(r)} {
      RequestMoves(s, t, ph, ph, r, t.requests[r], id);
    } else {
      ForeignMove(s, t, ph, r, t.requests[r]);
    }
  }

  /** A request whose reference is stale moves on. */
  lemma ForeignMove(s: System, t: System, ph: Phases, r: RequestId, q: Request)
    requires Core(s, ph) && PoolOk(t, ph) && t.requests == s.requests[r := q]
    requires r in s.requests && s.requests[r].pc.Clearing? && RequestOk(r, q, ph)
    ensures Core(t, ph)
  {
    forall x | x in ph
      ensures OwnerOk(t, ph, x)
    {
      assert OwnerOk(s, ph, x);
    }
  }

  /** The pool discards an instance, or the finalizer closes one nobody refers to. */
  lemma EnvironmentKeepsCore(s: System, ph: Phases, a: Action)
    requires Core(s, ph) && Enabled(s, a) && (a.PoolDrops? || a.Finalizes?)
    ensures Legal(ph, Touches(s, a)) && Core(Act(s, a), After(ph, Touches(s, a)))
  {
    OnlyUnreachable(s, ph, a);
    EnvironmentKeepsPool(s, ph, a);
    Unowned(s, Act(s, a), ph, After(ph, Touches(s, a)), a.id);
  }

  lemma EnvironmentKeepsPool(s: System, ph: Phases, a: Action)
    requires PoolOk(s, ph) && Enabled(s, a) && (a.PoolDrops? || a.Finalizes?)
    requires a.id in ph && Legal(ph, Touches(s, a))
    ensures var t, ph' := Act(s, a), After(ph, Touches(s, a));
            && PoolOk(t, ph') && t.requests == s.requests && ph' == ph[a.id := ph'[a.id]] && Owner(ph'[a.id]) == None
  {
    if a.PoolDrops? {
      TakingKeepsPool(s, ph, a);
    } else {
      CallKeepsPool(s, ph, a);
    }
  }

  /** What the environment takes away is free, discarded or lost. */
  lemma OnlyUnreachable(s: System, ph: Phases, a: Action)
    requires Core(s, ph) && Enabled(s, a) && (a.PoolDrops? || a.Finalizes?)
    ensures a.id in ph && Legal(ph, Touches(s, a))
    ensures Owner(ph[a.id]).Some? ==>
              Owner(ph[a.id]).value in s.requests && s.requests[Owner(ph[a.id]).value].pc == Ended
  {
    assert a.id in ph && OwnerOk(s, ph, a.id);
    var owner := Owner(ph[a.id]);
    if owner.Some? {
      assert RequestOk(owner.value, s.requests[owner.value], ph);
    }
  }

  lemma Unowned(s: System, t: System, ph: Phases, ph': Phases, id: InstanceId)
    requires Core(s, ph) && PoolOk(t, ph') && t.requests == s.requests
    requires ph'.Keys == ph.Keys && id in ph && forall x :: x in ph && x != id ==> ph'[x] == ph[x]
    requires Owner(ph'[id]) == None
    requires Owner(ph[id]).Some? ==> Owner(ph[id]).value in s.requests && s.requests[Owner(ph[id]).value].pc == Ended
    ensures Core(t, ph')
  {
    forall x | x in t.requests
      ensures RequestOk(x, t.requests[x], ph')
    {
      assert RequestOk(x, s.requests[x], ph);
    }
    forall x | x in ph'
      ensures OwnerOk(t, ph', x)
    {
      assert OwnerOk(s, ph, x);
    }
  }

  lemma StepKeepsCore(s: System, ph: Phases, a: Action)
    requires Core(s, ph) && Enabled(s, a)
    ensures Legal(ph, Touches(s, a)) && Core(Act(s, a), After(ph, Touches(s, a)))
  {
    if a.PoolDrops? || a.Finalizes? {
      EnvironmentKeepsCore(s, ph, a);
    } else if a.Miss? {
      MissKeepsCore(s, ph, a);
    } else if Touches(s, a).Touch? {
      TouchKeepsCore(s, ph, a);
    } else {
      MoveKeepsCore(s, ph, a);
    }
  }

  // ---- The logs ----

  /** The request's Close has put its guest into the pool. */
  predicate HasGiven(q: Request) {
    match q.pc
    case Clearing(_) => true
    case Back => q.ctxNext == 0
    case Ended => !Leaks(q.ctxNext)
    case _ => false
  }

  /** The instance a request has put back, if any. */
  function GivenBack(s: System, r: RequestId): Option<InstanceId> {
    if r in s.requests && HasGiven(s.requests[r]) then s.requests[r].took else None
  }

  /** Each instance's log has one Give from each request that put it back. */
  function GivesDue(s: System, r: RequestId, id: InstanceId): nat {
    if GivenBack(s, r) == Some(id) then 1 else 0
  }

  ghost predicate LogOk(s: System, ph: Phases, id: InstanceId)
    requires id in s.logs && id in ph
  {
    Replay(s.logs[id]) == Some(ph[id]) && forall r: nat :: Gives(r, s.logs[id]) == GivesDue(s, r, id)
  }

  ghost predicate History(s: System, ph: Phases) {
    s.logs.Keys == ph.Keys && forall id :: id in ph ==> LogOk(s, ph, id)
  }

  /** Who has given what back changes exactly with a Give event. */
  lemma GivenBackChanges(s: System, ph: Phases, a: Action, r: RequestId)
    requires Core(s, ph) && Enabled(s, a)
    ensures var touch := Touches(s, a);
            if touch.Touch? && touch.e == Give(r)
            then GivenBack(s, r) == None && GivenBack(Act(s, a), r) == Some(touch.id)
            else GivenBack(Act(s, a), r) == GivenBack(s, r)
  {
    if a.PoolDrops? || a.Finalizes? || a.r != r {
      OthersUnchanged(s, a, r);
    } else if r in s.requests {
      assert RequestOk(r, s.requests[r], ph);
      OwnGiveChanges(s, ph, a);
    }
  }

  lemma OthersUnchanged(s: System, a: Action, r: RequestId)
    requires Enabled(s, a) && (a.PoolDrops? || a.Finalizes? || a.r != r)
    ensures GivenBack(Act(s, a), r) == GivenBack(s, r)
    ensures Touches(s, a).Touch? ==> Touches(s, a).e != Give(r)
  {
  }

  lemma OwnGiveChanges(s: System, ph: Phases, a: Action)
    requires Core(s, ph) && Enabled(s, a) && !a.PoolDrops? && !a.Finalizes? && a.r in s.requests
    requires RequestOk(a.r, s.requests[a.r], ph)
    ensures var touch, q' := Touches(s, a), Act(s, a).requests[a.r];
            if touch.Touch? && touch.e == Give(a.r)
            then !HasGiven(s.requests[a.r]) && HasGiven(q') && q'.took == Some(touch.id)
            else GivenBack(Act(s, a), a.r) == GivenBack(s, a.r)
  {
    if a.DeferRequest? || a.DeferResponse? {
      DeferGives(s, ph, a);
    } else {
      OthersGiveNothing(s, ph, a);
    }
  }

  lemma DeferGives(s: System, ph: Phases, a: Action)
    requires Enabled(s, a) && (a.DeferRequest? || a.DeferResponse?) && RequestOk(a.r, s.requests[a.r], ph)
    ensures var touch, q' := Touches(s, a), Act(s, a).requests[a.r];
            if touch.Touch?
            then touch.e == Give(a.r) && !HasGiven(s.requests[a.r]) && HasGiven(q') && q'.took == Some(touch.id)
            else GivenBack(Act(s, a), a.r) == GivenBack(s, a.r)
  {
  }

  lemma OthersGiveNothing(s: System, ph: Phases, a: Action)
    requires Enabled(s, a) && !a.PoolDrops? && !a.Finalizes? && a.r in s.requests
    requires !a.DeferRequest? && !a.DeferResponse? && RequestOk(a.r, s.requests[a.r], ph)
    ensures Touches(s, a).Touch? ==> Touches(s, a).e != Give(a.r)
    ensures GivenBack(Act(s, a), a.r) == GivenBack(s, a.r)
  {
  }

  lemma OtherDueKept(s: System, ph: Phases, a: Action, id: InstanceId, r: RequestId)
    requires Core(s, ph) && Enabled(s, a) && !(Touches(s, a).Touch? && Touches(s, a).id == id)
    ensures GivesDue(Apply(s, a), r, id) == GivesDue(s, r, id)
  {
    GivenBackChanges(s, ph, a, r);
    assert GivenBack(Apply(s, a), r) == GivenBack(Act(s, a), r);
  }

  lemma OtherLogKept(s: System, ph: Phases, a: Action, id: InstanceId)
    requires Core(s, ph) && History(s, ph) && Enabled(s, a) && Legal(ph, Touches(s, a))
    requires id in ph && !(Touches(s, a).Touch? && Touches(s, a).id == id)
    ensures id in Apply(s, a).logs && LogOk(Apply(s, a), After(ph, Touches(s, a)), id)
  {
    assert LogOk(s, ph, id);
    UntouchedLog(s, ph, a, id);
    forall r: nat
      ensures GivesDue(Apply(s, a), r, id) == GivesDue(s, r, id)
    {
      OtherDueKept(s, ph, a, id, r);
    }
    LogCarries(s, Apply(s, a), ph, After(ph, Touches(s, a)), id);
  }

  lemma UntouchedLog(s: System, ph: Phases, a: Action, id: InstanceId)
    requires Enabled(s, a) && Legal(ph, Touches(s, a)) && id in ph && id in s.logs
    requires !(Touches(s, a).Touch? && Touches(s, a).id == id)
    ensures id in Apply(s, a).logs && Apply(s, a).logs[id] == s.logs[id]
    ensures id in After(ph, Touches(s, a)) && After(ph, Touches(s, a))[id] == ph[id]
  {
  }

  lemma LogCarries(s: System, t: System, ph: Phases, ph': Phases, id: InstanceId)
    requires id in s.logs && id in t.logs && id in ph && id in ph' && LogOk(s, ph, id)
    requires t.logs[id] == s.logs[id] && ph'[id] == ph[id]
    requires forall r: nat :: GivesDue(t, r, id) == GivesDue(s, r, id)
    ensures LogOk(t, ph', id)
  {
  }

  lemma TouchedGives(s: System, ph: Phases, a: Action, r: RequestId)
    requires Core(s, ph) && History(s, ph) && Enabled(s, a) && Touches(s, a).Touch?
    ensures var id := Touches(s, a).id;
            GivesDue(Act(s, a), r, id)
            == (if id in ph then Gives(r, s.logs[id]) else 0) + if Touches(s, a).e == Give(r) then 1 else 0
  {
    GivenBackChanges(s, ph, a, r);
    if r in s.requests {
      assert RequestOk(r, s.requests[r], ph);
    }
    if Touches(s, a).id in ph {
      assert LogOk(s, ph, Touches(s, a).id);
    }
  }

  lemma TouchedLogKept(s: System, ph: Phases, a: Action)
    requires Core(s, ph) && History(s, ph) && Enabled(s, a) && Legal(ph, Touches(s, a)) && Touches(s, a).Touch?
    ensures var id := Touches(s, a).id;
            id in Apply(s, a).logs && LogOk(Apply(s, a), After(ph, Touches(s, a)), id)
  {
    var id, e := Touches(s, a).id, Touches(s, a).e;
    Append(if id in ph then s.logs[id] else [], e);
    assert id in ph ==> LogOk(s, ph, id);
    forall r: nat
      ensures Gives(r, Apply(s, a).logs[id]) == GivesDue(Apply(s, a), r, id)
    {
      TouchedGives(s, ph, a, r);
    }
  }

  lemma StepKeepsHistory(s: System, ph: Phases, a: Action)
    requires Core(s, ph) && History(s, ph) && Enabled(s, a) && Legal(ph, Touches(s, a))
    ensures History(Apply(s, a), After(ph, Touches(s, a)))
  {
    forall id | id in After(ph, Touches(s, a))
      ensures id in Apply(s, a).logs && LogOk(Apply(s, a), After(ph, Touches(s, a)), id)
    {
      if Touches(s, a).Touch? && Touches(s, a).id == id {
        TouchedLogKept(s, ph, a);
      } else {
        OtherLogKept(s, ph, a, id);
      }
    }
  }

  /** Every run keeps every instance disciplined, whatever the interleaving. */
  lemma {:induction false} RunKeepsInvariant(s: System, ph: Phases, run: seq<Action>) returns (ph': Phases)
    requires Core(s, ph) && History(s, ph) && Run(s, run).Some?
    ensures Core(Run(s, run).value, ph') && History(Run(s, run).value, ph')
  {
    if run == [] {
      ph' := ph;
    } else {
      var before, a := run[..|run| - 1], run[|run| - 1];
      ph' := RunKeepsInvariant(s, ph, before);
      var t := Run(s, before).value;
      StepKeepsCore(t, ph', a);
      StepKeepsHistory(t, ph', a);
      CoreIgnoresLogs(Act(t, a), Apply(t, a), After(ph', Touches(t, a)));
      ph' := After(ph', Touches(t, a));
    }
  }

  lemma CoreIgnoresLogs(s: System, t: System, ph: Phases)
    requires Core(s, ph) && t == s.(logs := t.logs)
    ensures Core(t, ph)
  {
    forall id | id in ph
      ensures OwnerOk(t, ph, id)
    {
      assert OwnerOk(s, ph, id);
    }
  }

  lemma ReachableInvariant(s: System) returns (ph: Phases)
    requires Reachable(s)
    ensures Core(s, ph) && History(s, ph)
  {
    var run :| Run(Initial(), run) == Some(s);
    ph := RunKeepsInvariant(Initial(), map[0 := Free], run);
  }

  // ---- The results ----

  predicate InCall(q: Request) {
    q.pc.InRequest? || q.pc.InResponse?
  }

  /** A request that may use the guest it refers to. */
  predicate Holds(q: Request) {
    q.g.Some? && !q.pc.Clearing? && q.pc != Ended
  }

  /** In every reachable state the log of every instance is disciplined ... */
  lemma EveryLogDisciplined(s: System, id: InstanceId)
    requires Reachable(s) && id in s.logs
    ensures Disciplined(s.logs[id])
  {
    var ph := ReachableInvariant(s);
    assert LogOk(s, ph, id);
  }

  /** ... so handle_response always runs right after its own handle_request on the
      same instance, with the upper half of its result, ... */
  lemma PinnedInEveryRun(s: System, id: InstanceId, i: nat)
    requires Reachable(s) && id in s.logs && i < |s.logs[id]| && s.logs[id][i].CallResponse?
    ensures i >= 3
    ensures var log, r := s.logs[id], s.logs[id][i].r;
            && log[i - 3] == Take(r) && log[i - 2] == CallRequest(r)
            && log[i - 1].RequestRet? && log[i - 1].r == r && log[i - 1].ret.Returned?
            && log[i].reqCtx == Hi(log[i - 1].ret.v) && Lo(log[i - 1].ret.v) != 0
  {
    EveryLogDisciplined(s, id);
    ResponseIsPinned(s.logs[id], i);
  }

  /** ... and a guest that counts its requests never traps in any run, however the
      requests interleave, as long as the results in its log are its own: that leaves
      out calls that fail because the runtime was closed under them. */
  lemma CounterNeverTrapsInAnyRun(s: System, id: InstanceId, i: nat)
    requires Reachable(s) && id in s.logs && i < |s.logs[id]| && CounterGuest.Plays(s.logs[id])
    ensures s.logs[id][i].RequestRet? || s.logs[id][i].ResponseRet? ==> s.logs[id][i].ret != Trapped
  {
    EveryLogDisciplined(s, id);
    CounterGuest.NeverTraps(s.logs[id], i);
  }

  /** Exclusive ownership: a guest a request may use is used by no other request and
      is not in the pool, and the pool holds no guest twice. Neither kind is closed as
      long as the runtime is up, and both are once it is down. */
  lemma ExclusiveOwnership(s: System, r: RequestId, other: RequestId, id: InstanceId)
    requires Reachable(s)
    ensures s.pool[id] <= 1 && (id in s.pool ==> id in s.logs && (IsClosed(s, id) <==> s.down))
    ensures r in s.requests && Holds(s.requests[r]) && s.requests[r].g == Some(id) ==>
              && id !in s.pool && (IsClosed(s, id) <==> s.down)
              && (other in s.requests && Holds(s.requests[other]) && s.requests[other].g == Some(id) ==> other == r)
  {
    var ph := ReachableInvariant(s);
    if r in s.requests {
      assert RequestOk(r, s.requests[r], ph);
    }
    if other in s.requests {
      assert RequestOk(other, s.requests[other], ph);
    }
    assert id !in ph ==> id !in s.pool;
  }

  /** No instance ever runs two calls at once, and the call it runs is on a live one
      unless the runtime is down. */
  lemma NoConcurrentCalls(s: System, r: RequestId, other: RequestId)
    requires Reachable(s) && r in s.requests && other in s.requests && r != other
    requires InCall(s.requests[r]) && InCall(s.requests[other])
    ensures s.requests[r].g.Some? && s.requests[other].g.Some?
    ensures s.requests[r].g != s.requests[other].g
    ensures IsClosed(s, s.requests[r].g.value) <==> s.down
  {
    var ph := ReachableInvariant(s);
    assert RequestOk(r, s.requests[r], ph) && RequestOk(other, s.requests[other], ph);
    ExclusiveOwnership(s, r, other, s.requests[r].g.value);
  }

  predicate InstantiationFailed(run: seq<Action>) {
    exists i :: 0 <= i < |run| && run[i].CreateFails?
  }

  lemma OnlyFailureBringsDown(s: System, a: Action)
    requires Enabled(s, a)
    ensures Apply(s, a).down <==> s.down || a.CreateFails?
  {
  }

  /** newGuest closes the runtime when it cannot instantiate, and nothing else does. */
  lemma {:induction false} DownExactlyAfterFailure(run: seq<Action>, s: System)
    requires Run(Initial(), run) == Some(s)
    ensures s.down <==> InstantiationFailed(run)
  {
    if run != [] {
      var before, a := run[..|run| - 1], run[|run| - 1];
      var t := Run(Initial(), before).value;
      DownExactlyAfterFailure(before, t);
      OnlyFailureBringsDown(t, a);
      if InstantiationFailed(before) {
        var i :| 0 <= i < |before| && before[i].CreateFails?;
        assert run[i].CreateFails?;
      }
    }
  }

  /** After that no instance is ever created again. */
  lemma {:induction false} NothingNewWhenDown(s: System, run: seq<Action>)
    requires s.down && Run(s, run).Some?
    ensures Run(s, run).value.down && Run(s, run).value.created == s.created
  {
    if run != [] {
      NothingNewWhenDown(s, run[..|run| - 1]);
    }
  }

  /** A guest in use, or in the pool for use, is closed if and only if some request
      of the run failed to create its own. */
  lemma ClosedExactlyAfterFailure(run: seq<Action>, s: System, r: RequestId, id: InstanceId)
    requires Run(Initial(), run) == Some(s)
    requires id in s.pool || (r in s.requests && Holds(s.requests[r]) && s.requests[r].g == Some(id))
    ensures IsClosed(s, id) <==> InstantiationFailed(run)
  {
    DownExactlyAfterFailure(run, s);
    ExclusiveOwnership(s, r, r, id);
  }

  /** It happens: request 1 runs on guest 0 while request 2 fails to get a guest. */
  lemma AClosedGuestInUse() returns (s: System)
    ensures Reachable(s) && At(s, 1, InRequest) && s.requests[1].g == Some(0) && At(s, 2, Ended)
    ensures s.finalized == {} && IsClosed(s, 0)
  {
    s := Initial();
    var run: seq<Action> := [];
    s, run := RunOne(run, s, Arrive(1));
    s, run := RunOne(run, s, Hit(1, 0));
    s, run := RunOne(run, s, EnterRequest(1));
    s, run := RunOne(run, s, Arrive(2));
    s, run := RunOne(run, s, CreateFails(2));
  }

  // ---- Every instance is in one place ----

  datatype Place =
    | Pooled
    | HeldBy(r: RequestId)
    | Discarded
    | Finalized
    | LostBy(r: RequestId)

  predicate LastEvent(s: System, id: InstanceId, e: Event) {
    id in s.logs && s.logs[id] != [] && s.logs[id][|s.logs[id]| - 1] == e
  }

  /** A guest is lost by a request that has ended, if the last that happened to it is
      that this request's handle_request returned. */
  ghost predicate IsIn(s: System, id: InstanceId, p: Place) {
    match p
    case Pooled => id in s.pool
    case HeldBy(r) => r in s.requests && Holds(s.requests[r]) && s.requests[r].g == Some(id)
    case Discarded => LastEvent(s, id, Drop)
    case Finalized => id in s.finalized
    case LostBy(r) => At(s, r, Ended) && exists ret :: LastEvent(s, id, RequestRet(r, ret))
  }

  /** Every instance ever created is in exactly one place. */
  lemma ExactlyOnePlace(s: System, id: InstanceId) returns (p: Place)
    requires Reachable(s) && id < s.created
    ensures IsIn(s, id, p) && forall q :: IsIn(s, id, q) ==> q == p
  {
    var ph := ReachableInvariant(s);
    assert LogOk(s, ph, id) && OwnerOk(s, ph, id);
    p := PlaceOf(s, ph, id);
    ThereIsAPlace(s, ph, id);
    forall q | IsIn(s, id, q) ensures q == p {
      match q
      case HeldBy(r) => OnlyHolder(s, ph, id, r);
      case Discarded => PhaseOfLast(s, ph, id, Drop);
      case LostBy(r) =>
        var ret :| LastEvent(s, id, RequestRet(r, ret));
        PhaseOfLast(s, ph, id, RequestRet(r, ret));
      case _ =>
    }
  }

  function PlaceOf(s: System, ph: Phases, id: InstanceId): Place
    requires id in ph
  {
    match ph[id]
    case Free => Pooled
    case Dropped => Discarded
    case Closed => Finalized
    case _ =>
      var r := Owner(ph[id]).value;
      if At(s, r, Ended) then LostBy(r) else HeldBy(r)
  }

  /** The pool may discard what it holds at any time, and a finalizer may then close it
      as soon as no request refers to it. */
  lemma PoolMayDiscard(s: System, id: InstanceId)
    requires Reachable(s) && id in s.pool
    ensures Enabled(s, PoolDrops(id))
    ensures var t := Apply(s, PoolDrops(id));
            IsIn(t, id, Discarded) && (!Referenced(s, id) ==> Enabled(t, Finalizes(id)))
  {
    var ph := ReachableInvariant(s);
    assert s.pool[id] == 1;
    assert id in ph && LogOk(s, ph, id);
  }

  /** The last event tells the phase, where it is one that no request can change. */
  lemma PhaseOfLast(s: System, ph: Phases, id: InstanceId, e: Event)
    requires Core(s, ph) && History(s, ph) && id in ph && LastEvent(s, id, e)
    ensures e == Drop ==> ph[id] == Dropped
    ensures e.RequestRet? ==> ph[id] == Judged(e.r, CtxNext(e.ret))
  {
    assert LogOk(s, ph, id);
  }

  lemma ThereIsAPlace(s: System, ph: Phases, id: InstanceId)
    requires Core(s, ph) && History(s, ph) && id in ph
    ensures IsIn(s, id, PlaceOf(s, ph, id))
  {
    assert LogOk(s, ph, id) && OwnerOk(s, ph, id);
    var log := s.logs[id];
    LastOfPhase(log);
    if ph[id].Judged? {
      assert LastEvent(s, id, RequestRet(ph[id].r, log[|log| - 1].ret));
    }
  }

  lemma OnlyHolder(s: System, ph: Phases, id: InstanceId, r: RequestId)
    requires Core(s, ph) && id in ph && r in s.requests && Holds(s.requests[r]) && s.requests[r].g == Some(id)
    ensures PlaceOf(s, ph, id) == HeldBy(r)
  {
    assert RequestOk(r, s.requests[r], ph);
  }

  /** A request gives a guest back at most once, only the guest it took, and when
      it has ended exactly once unless its result is the one that loses guests. */
  lemma GivenBackExactlyOnce(s: System, r: RequestId, id: InstanceId)
    requires Reachable(s) && r in s.requests && id in s.logs
    ensures Gives(r, s.logs[id]) <= 1
    ensures s.requests[r].took != Some(id) ==> Gives(r, s.logs[id]) == 0
    ensures s.requests[r].pc == Ended && s.requests[r].took == Some(id) ==>
              (Gives(r, s.logs[id]) == 1 <==> !Leaks(s.requests[r].ctxNext))
  {
    var ph := ReachableInvariant(s);
    assert LogOk(s, ph, id) && RequestOk(r, s.requests[r], ph);
  }

  /** HandleResponse may be called again for any request that had one, at any time: it
      finds no guest, and nothing changes. */
  lemma RepeatChangesNothing(s: System, r: RequestId)
    requires Reachable(s) && At(s, r, Ended) && Lo(s.requests[r].ctxNext) != 0
    ensures Enabled(s, RepeatResponse(r)) && Apply(s, RepeatResponse(r)) == s
  {
    var ph := ReachableInvariant(s);
    assert RequestOk(r, s.requests[r], ph);
    assert s.requests[r := s.requests[r]] == s.requests;
  }

  /** The result that loses a guest can be reached: one request suffices. */
  lemma ALostGuest() returns (s: System)
    ensures Reachable(s) && At(s, 7, Ended) && s.requests[7].took == Some(0)
    ensures s.pool == multiset{} && 0 in s.logs && Gives(7, s.logs[0]) == 0
  {
    var v: uint64 := Pack(16, 0);
    Unpack(16, 0);
    s := Initial();
    var run: seq<Action> := [];
    s, run := RunOne(run, s, Arrive(7));
    s, run := RunOne(run, s, Hit(7, 0));
    s, run := RunOne(run, s, EnterRequest(7));
    s, run := RunOne(run, s, LeaveRequest(7, Returned(v)));
    s, run := RunOne(run, s, DeferRequest(7));
    s, run := RunOne(run, s, Dispatch(7));
    var ph := ReachableInvariant(s);
    GivenBackExactlyOnce(s, 7, 0);
  }

  lemma RunOne(run: seq<Action>, s: System, a: Action) returns (t: System, longer: seq<Action>)
    requires Run(Initial(), run) == Some(s) && Enabled(s, a)
    ensures longer == run + [a] && t == Apply(s, a) && Run(Initial(), longer) == Some(t)
  {
    longer, t := run + [a], Apply(s, a);
    assert longer[..|run|] == run;
  }
}

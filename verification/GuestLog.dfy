/** What may happen to one guest instance, in order: the sequential discipline
    that the concurrent host has to keep for every instance. */
module GuestLog {
  import opened Abi

  type RequestId = nat

  /** How a guest export ends. */
  datatype Ret = Returned(v: uint64) | Trapped

  datatype Event =
    | Take(r: RequestId)                      // out of the pool, or fresh
    | CallRequest(r: RequestId)
    | RequestRet(r: RequestId, ret: Ret)
    | CallResponse(r: RequestId, reqCtx: uint32)
    | ResponseRet(r: RequestId, ret: Ret)
    | Give(r: RequestId)                      // into the pool
    | Drop                                    // discarded by the pool
    | Finalize                                // closed by the finalizer

  datatype Phase =
    | Free
    | Taken(r: RequestId)
    | Running(r: RequestId)
    | Judged(r: RequestId, ctxNext: uint64)
    | Answering(r: RequestId)
    | Answered(r: RequestId)
    | Dropped
    | Closed

  /** The 64-bit result HandleRequest returns: zero if the guest trapped. */
  function CtxNext(ret: Ret): uint64 {
    if ret.Returned? then ret.v else 0
  }

  /** HandleRequest keeps the guest when any bit is set; its caller only looks at
      the low half. In between lies the result that loses a guest. */
  predicate Leaks(ctxNext: uint64) {
    ctxNext != 0 && Lo(ctxNext) == 0
  }

  function Owner(p: Phase): Option<RequestId> {
    match p
    case Taken(r) => Some(r)
    case Running(r) => Some(r)
    case Judged(r, _) => Some(r)
    case Answering(r) => Some(r)
    case Answered(r) => Some(r)
    case _ => None
  }

  /** One legal event: a request takes a free instance, runs handle_request once,
      and either gives it back or runs handle_response once, with the upper half
      of its own result, and then gives it back. */
  function Advance(p: Phase, e: Event): Option<Phase> {
    match e
    case Take(r) => if p == Free then Some(Taken(r)) else None
    case CallRequest(r) => if p == Taken(r) then Some(Running(r)) else None
    case RequestRet(r, ret) => if p == Running(r) then Some(Judged(r, CtxNext(ret))) else None
    case CallResponse(r, c) =>
      if p.Judged? && p.r == r && Lo(p.ctxNext) != 0 && c == Hi(p.ctxNext) then Some(Answering(r)) else None
    case ResponseRet(r, ret) => if p == Answering(r) then Some(Answered(r)) else None
    case Give(r) => if p == Judged(r, 0) || p == Answered(r) then Some(Free) else None
    case Drop => if p == Free then Some(Dropped) else None
    case Finalize => if p == Dropped || (p.Judged? && Leaks(p.ctxNext)) then Some(Closed) else None
  }

  /** The phase a log leads to, if every event in it was legal. */
  function Replay(log: seq<Event>): Option<Phase> {
    if log == [] then Some(Free)
    else match Replay(log[..|log| - 1])
         case None => None
         case Some(p) => Advance(p, log[|log| - 1])
  }

  predicate Disciplined(log: seq<Event>) {
    Replay(log).Some?
  }

  function Gives(r: RequestId, log: seq<Event>): nat {
    if log == [] then 0
    else Gives(r, log[..|log| - 1]) + (if log[|log| - 1] == Give(r) then 1 else 0)
  }

  lemma Append(log: seq<Event>, e: Event)
    ensures Replay(log + [e]) == match Replay(log) case None => None case Some(p) => Advance(p, e)
    ensures forall r: nat :: Gives(r, log + [e]) == Gives(r, log) + if e == Give(r) then 1 else 0
  {
    assert (log + [e])[..|log|] == log;
  }

  lemma {:induction false} DisciplinedPrefix(log: seq<Event>, n: nat)
    requires n <= |log| && Disciplined(log)
    ensures Disciplined(log[..n])
    decreases |log|
  {
    if n < |log| {
      DisciplinedPrefix(log[..|log| - 1], n);
      assert log[..|log| - 1][..n] == log[..n];
    } else {
      assert log[..n] == log;
    }
  }

  /** The phase after n + 1 events comes from the phase after n. */
  lemma PhaseStep(log: seq<Event>, n: nat)
    requires n < |log| && Disciplined(log)
    ensures Disciplined(log[..n]) && Disciplined(log[..n + 1])
    ensures Some(Replay(log[..n + 1]).value) == Advance(Replay(log[..n]).value, log[n])
  {
    DisciplinedPrefix(log, n);
    DisciplinedPrefix(log, n + 1);
    assert log[..n + 1][..n] == log[..n];
  }

  /** The last event tells how an instance got where it is. */
  lemma LastOfPhase(log: seq<Event>)
    requires Disciplined(log)
    ensures var p := Replay(log).value;
            && (p == Dropped ==> log != [] && log[|log| - 1] == Drop)
            && (p.Taken? ==> log != [] && log[|log| - 1] == Take(p.r))
            && (p.Running? ==> log != [] && log[|log| - 1] == CallRequest(p.r))
            && (p.Answered? ==> log != [] && log[|log| - 1].ResponseRet? && log[|log| - 1].r == p.r)
            && (p.Judged? ==>
                  && log != [] && log[|log| - 1].RequestRet?
                  && log[|log| - 1].r == p.r && CtxNext(log[|log| - 1].ret) == p.ctxNext)
  {
  }

  /** The event at i is legal in the phase of the log before it, which the event
      before it explains. */
  lemma ExplainedBy(log: seq<Event>, i: nat)
    requires i < |log| && Disciplined(log)
    ensures Disciplined(log[..i]) && Advance(Replay(log[..i]).value, log[i]).Some?
    ensures i > 0 ==> log[..i][|log[..i]| - 1] == log[i - 1]
    ensures log[i].CallResponse? ==>
              && i > 0 && log[i - 1].RequestRet? && log[i - 1].r == log[i].r
              && log[i].reqCtx == Hi(CtxNext(log[i - 1].ret)) && Lo(CtxNext(log[i - 1].ret)) != 0
    ensures log[i].RequestRet? ==> i > 0 && log[i - 1] == CallRequest(log[i].r)
    ensures log[i].CallRequest? ==> i > 0 && log[i - 1] == Take(log[i].r)
  {
    PhaseStep(log, i);
    LastOfPhase(log[..i]);
  }

  /** Pinning: handle_response only ever runs on an instance whose last three
      events are that same request taking it, calling handle_request and getting
      a result whose halves say to proceed and what to pass. */
  lemma ResponseIsPinned(log: seq<Event>, i: nat)
    requires i < |log| && Disciplined(log) && log[i].CallResponse?
    ensures i >= 3
    ensures log[i - 3] == Take(log[i].r) && log[i - 2] == CallRequest(log[i].r)
    ensures log[i - 1].RequestRet? && log[i - 1].r == log[i].r && log[i - 1].ret.Returned?
    ensures log[i].reqCtx == Hi(log[i - 1].ret.v) && Lo(log[i - 1].ret.v) != 0
  {
    ExplainedBy(log, i);
    ExplainedBy(log, i - 1);
    ExplainedBy(log, i - 2);
  }

  /** A request gives its guest back only when it is done with it: right after the end
      of handle_response, or of a handle_request that trapped or returned zero. */
  lemma GivenOnlyWhenDone(log: seq<Event>, i: nat)
    requires i < |log| && Disciplined(log) && log[i].Give?
    ensures i > 0
    ensures var before, r := log[i - 1], log[i].r;
            || (before.ResponseRet? && before.r == r)
            || (before.RequestRet? && before.r == r && before.ret in {Trapped, Returned(0)})
  {
    PhaseStep(log, i);
    LastOfPhase(log[..i]);
  }

  /** An instance changes hands only through the pool: between two requests'
      events there is a Give by the first. */
  lemma TakenOnlyAfterGiven(log: seq<Event>, i: nat)
    requires 0 < i < |log| && Disciplined(log) && log[i].Take?
    ensures log[i - 1].Give?
  {
    PhaseStep(log, i);
    PhaseStep(log, i - 1);
  }
}

/** The guest of internal/test/testdata/e2e/handle_response.wat: it counts its
    requests and traps unless each response refers to the last of them. */
module CounterGuest {
  import opened Abi
  import opened GuestLog

  const FIRST := 42

  /** The mutable global, with i32 wrap-around, after the calls in a log. */
  function Counter(log: seq<Event>): uint32 {
    if log == [] then FIRST
    else if log[|log| - 1].RequestRet? then Wrap32(Counter(log[..|log| - 1]) + 1)
    else Counter(log[..|log| - 1])
  }

  /** The results in the log are those this guest gives, so no call in it has failed
      because the runtime was closed. */
  ghost predicate Plays(log: seq<Event>) {
    log != [] ==> Plays(log[..|log| - 1]) && Fits(log[..|log| - 1], log[|log| - 1])
  }

  class Instance {
    var reqCtx: uint32
    ghost var log: seq<Event>

    constructor ()
      ensures Valid() && log == []
    {
      reqCtx, log := FIRST, [];
    }

    ghost predicate Valid()
      reads this
    {
      Plays(log) && reqCtx == Counter(log)
    }

    /** handle_request */
    method HandleRequest(ghost r: RequestId) returns (ctxNext: uint64)
      requires Valid()
      modifies this
      ensures Valid()
      ensures log == old(log) + [CallRequest(r), RequestRet(r, Returned(ctxNext))]
    {
      var mine := reqCtx;
      reqCtx := Wrap32(reqCtx + 1);
      ctxNext := Pack(mine, 1);
      Extend(log, CallRequest(r));
      Extend(log + [CallRequest(r)], RequestRet(r, Returned(ctxNext)));
      log := log + [CallRequest(r)] + [RequestRet(r, Returned(ctxNext))];
      assert log == old(log) + [CallRequest(r), RequestRet(r, Returned(ctxNext))];
    }

    /** handle_response */
    method HandleResponse(ghost r: RequestId, ctx: uint32) returns (out: Result<()>)
      requires Valid()
      modifies this
      ensures Valid()
      ensures out == if ctx == Wrap32(old(reqCtx) - 1) then Ok(()) else Trap
      ensures log == old(log) + [CallResponse(r, ctx), ResponseRet(r, if out.Ok? then Returned(0) else Trapped)]
    {
      out := if ctx != Wrap32(reqCtx - 1) then Trap else Ok(());
      ghost var ret := if out.Ok? then Returned(0) else Trapped;
      Extend(log, CallResponse(r, ctx));
      Extend(log + [CallResponse(r, ctx)], ResponseRet(r, ret));
      log := log + [CallResponse(r, ctx)] + [ResponseRet(r, ret)];
      assert log == old(log) + [CallResponse(r, ctx), ResponseRet(r, ret)];
    }

    /** What the host does between calls leaves no trace in the guest. */
    ghost method Observe(e: Event)
      requires Valid() && !e.RequestRet? && !e.ResponseRet?
      modifies this
      ensures Valid() && log == old(log) + [e] && reqCtx == old(reqCtx)
    {
      Extend(log, e);
      log := log + [e];
    }
  }

  /** The guest's own part in an event: the results are its to give. */
  ghost predicate Fits(log: seq<Event>, e: Event) {
    && (e.RequestRet? ==> e.ret == Returned(Pack(Counter(log), 1)))
    && (e.ResponseRet? ==>
          && log != [] && log[|log| - 1].CallResponse?
          && (e.ret == Trapped <==> log[|log| - 1].reqCtx != Wrap32(Counter(log) - 1)))
  }

  lemma Extend(log: seq<Event>, e: Event)
    requires Plays(log) && Fits(log, e)
    ensures Plays(log + [e])
    ensures Counter(log + [e]) == if e.RequestRet? then Wrap32(Counter(log) + 1) else Counter(log)
  {
    assert (log + [e])[..|log|] == log;
  }

  lemma {:induction false} PlaysPrefix(log: seq<Event>, n: nat)
    requires n <= |log| && Plays(log)
    ensures Plays(log[..n])
    decreases |log|
  {
    if n < |log| {
      PlaysPrefix(log[..|log| - 1], n);
      assert log[..|log| - 1][..n] == log[..n];
    } else {
      assert log[..n] == log;
    }
  }

  /** On an instance that the host uses with discipline, this guest never traps,
      however many requests it serves. */
  lemma NeverTraps(log: seq<Event>, i: nat)
    requires Disciplined(log) && Plays(log) && i < |log|
    ensures log[i].RequestRet? || log[i].ResponseRet? ==> log[i].ret != Trapped
  {
    PlaysPrefix(log, i + 1);
    assert log[..i + 1][..i] == log[..i];
    if log[i].ResponseRet? {
      assert log[i - 1].CallResponse?;
      ResponseIsPinned(log, i - 1);
      CounterAfterCall(log, i - 1);
    }
  }

  /** When handle_response is called, the counter is one past what the request got. */
  lemma CounterAfterCall(log: seq<Event>, i: nat)
    requires Plays(log) && 0 < i < |log| && log[i].CallResponse?
    requires log[i - 1].RequestRet? && log[i - 1].ret.Returned? && log[i].reqCtx == Hi(log[i - 1].ret.v)
    ensures log[i].reqCtx == Wrap32(Counter(log[..i + 1]) - 1)
  {
    PlaysPrefix(log, i);
    assert log[..i][..i - 1] == log[..i - 1];
    assert log[..i + 1][..i] == log[..i];
    Unpack(Counter(log[..i - 1]), 1);
    assert Counter(log[..i + 1]) == Counter(log[..i]) == Wrap32(Counter(log[..i - 1]) + 1);
  }
}

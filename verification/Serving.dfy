/** The code that drives the life of a request, with every other request running
    in between: HandleRequest and HandleResponse of handler/middleware.go inside
    ServeHTTP of handler/nethttp/middleware.go. */
module Serving {
  import opened Abi
  import opened GuestLog
  import opened Lifecycle

  /** What the environment decides while one request is served: what the pool
      answers, whether instantiation works, how the guest's exports end, and what
      everybody else does between this request's steps. */
  datatype Environment = Environment(
    pooled: Option<InstanceId>,
    createFails: bool,
    request: Ret,
    response: Ret,
    others: nat -> seq<Action>)

  predicate ActsFor(a: Action, r: RequestId) {
    !a.PoolDrops? && !a.Finalizes? && a.r == r
  }

  lemma OthersLeaveAlone(s: System, a: Action, r: RequestId)
    requires Enabled(s, a) && !ActsFor(a, r) && r in s.requests
    ensures r in Apply(s, a).requests && Apply(s, a).requests[r] == s.requests[r]
    ensures s.down ==> Apply(s, a).down
  {
  }

  /** The pool has a guest for this request. */
  predicate Hits(s: System, env: Environment) {
    env.pooled.Some? && env.pooled.value in s.pool
  }

  /** A request gets a guest from the pool, or else one that is instantiated for it. */
  predicate Gets(s: System, env: Environment) {
    Hits(s, env) || (!env.createFails && !s.down)
  }

  /** The guest a request that finds the system in state s ends up with: the pooled one,
      or the next instance there is. */
  ghost predicate TookAsAsked(s: System, env: Environment, took: Option<InstanceId>) {
    && (took.Some? <==> Gets(s, env))
    && (Hits(s, env) ==> took == env.pooled)
    && (took.Some? && !Hits(s, env) ==> took == Some(s.created))
  }

  /** The action by which a request acquires its guest, or fails to. */
  predicate Acquires(a: Action, r: RequestId) {
    (a.Hit? || a.Miss? || a.CreateFails?) && a.r == r
  }

  class Middleware {
    /** The pool, the request states and the instances, as they are shared by all. */
    var shared: System
    ghost var history: seq<Action>

    constructor ()
      ensures Valid() && shared == Initial()
    {
      shared, history := Initial(), [];
    }

    /** The state is one that some run of the system leads to. */
    ghost predicate Valid()
      reads this
    {
      Run(Initial(), history) == Some(shared)
    }

    /** One atomic action. */
    method Step(a: Action)
      requires Valid() && Enabled(shared, a)
      modifies this
      ensures Valid() && shared == Apply(old(shared), a) && history == old(history) + [a]
    {
      history := history + [a];
      assert history[..|history| - 1] == old(history);
      shared := Apply(shared, a);
    }

    /** Everybody but request r, for as long as the schedule says. */
    method Others(r: RequestId, schedule: seq<Action>)
      requires Valid() && r in shared.requests
      modifies this
      ensures Valid() && r in shared.requests && shared.requests[r] == old(shared.requests[r])
      ensures old(shared.down) ==> shared.down
      ensures old(history) <= history
    {
      for i := 0 to |schedule|
        invariant Valid() && r in shared.requests && shared.requests[r] == old(shared.requests[r])
        invariant old(shared.down) ==> shared.down
        invariant old(history) <= history
      {
        var a := schedule[i];
        if !ActsFor(a, r) && Enabled(shared, a) {
          OthersLeaveAlone(shared, a, r);
          Step(a);
        }
      }
    }

    /** One action of request r itself, with interference after it. */
    method Do(r: RequestId, a: Action, schedule: seq<Action>)
      requires Valid() && Enabled(shared, a) && ActsFor(a, r)
      modifies this
      ensures Valid() && r in shared.requests && shared.requests[r] == Act(old(shared), a).requests[r]
      ensures Act(old(shared), a).down ==> shared.down
      ensures old(history) + [a] <= history
    {
      Step(a);
      Others(r, schedule);
    }

    /** getOrCreateGuest */
    method GetOrCreateGuest(r: RequestId, env: Environment) returns (ok: bool)
      requires Valid() && At(shared, r, Start)
      modifies this
      ensures Valid() && r in shared.requests
      ensures ok <==> Gets(old(shared), env)
      ensures TookAsAsked(old(shared), env, shared.requests[r].took)
      ensures old(history) < history && Acquires(history[|old(history)|], r)
      ensures ok ==>
                && shared.requests[r].pc == Checked && shared.requests[r].g.Some? && shared.requests[r].took.Some?
                && (IsClosed(shared, shared.requests[r].g.value) <==> shared.down)
      ensures !ok ==>
                && shared.down && (forall id: nat :: id < shared.created ==> IsClosed(shared, id))
                && shared.requests[r].pc == Ended && shared.requests[r].took == old(shared.requests[r].took)
    {
      StartsWithout(r);
      if env.pooled.Some? && env.pooled.value in shared.pool {
        Do(r, Hit(r, env.pooled.value), env.others(1));
        GuestIsOpen(r);
        return true;
      }
      if env.createFails || shared.down {
        Do(r, CreateFails(r), env.others(1));
        return false;
      }
      Do(r, Miss(r), env.others(1));
      GuestIsOpen(r);
      ok := true;
    }

    lemma StartsWithout(r: RequestId)
      requires Valid() && At(shared, r, Start)
      ensures shared.requests[r].took.None?
    {
      assert Reachable(shared);
      var ph := ReachableInvariant(shared);
      assert RequestOk(r, shared.requests[r], ph);
    }

    lemma GuestIsOpen(r: RequestId)
      requires Valid() && At(shared, r, Checked)
      ensures shared.requests[r].g.Some?
      ensures IsClosed(shared, shared.requests[r].g.value) <==> shared.down
    {
      assert Reachable(shared);
      var ph := ReachableInvariant(shared);
      assert RequestOk(r, shared.requests[r], ph);
      ExclusiveOwnership(shared, r, r, shared.requests[r].g.value);
    }

    /** HandleRequest */
    method HandleRequest(r: RequestId, env: Environment)
      requires Valid() && At(shared, r, Start)
      modifies this
      ensures Valid() && r in shared.requests
      ensures TookAsAsked(old(shared), env, shared.requests[r].took)
      ensures old(history) < history && Acquires(history[|old(history)|], r)
      ensures || shared.requests[r].pc == Ended
              || (shared.requests[r].pc == Back && shared.requests[r].ctxNext == CtxNext(env.request))
      ensures shared.requests[r].pc == Ended ==> shared.down && shared.requests[r].took == old(shared.requests[r].took)
      ensures shared.requests[r].pc == Back ==> shared.requests[r].took.Some?
    {
      var ok := GetOrCreateGuest(r, env);
      if ok {
        CallGuest(r, env);
      }
    }

    /** The guest call and the deferred close. */
    method CallGuest(r: RequestId, env: Environment)
      requires Valid() && At(shared, r, Checked)
      modifies this
      ensures Valid() && At(shared, r, Back) && shared.requests[r].ctxNext == CtxNext(env.request)
      ensures shared.requests[r].took == old(shared.requests[r].took)
      ensures old(history) <= history
    {
      Do(r, EnterRequest(r), env.others(2));
      Do(r, LeaveRequest(r, env.request), env.others(3));
      Do(r, DeferRequest(r), env.others(4));
      if CtxNext(env.request) == 0 {
        Do(r, ClearGuest(r), env.others(5));
      }
    }

    /** HandleResponse: its deferred Close runs however the guest call ends. */
    method HandleResponse(r: RequestId, env: Environment) returns (err: bool)
      requires Valid() && At(shared, r, Next)
      modifies this
      ensures Valid() && r in shared.requests && shared.requests[r].pc == Ended
      ensures shared.requests[r].ctxNext == old(shared.requests[r].ctxNext)
      ensures shared.requests[r].took == old(shared.requests[r].took)
      ensures shared.requests[r].g == None && err == env.response.Trapped?
      ensures old(history) <= history
    {
      HasGuest(r);
      Do(r, EnterResponse(r), env.others(8));
      Do(r, LeaveResponse(r, env.response), env.others(9));
      Do(r, DeferResponse(r), env.others(10));
      Do(r, ClearGuest(r), env.others(11));
      err := env.response.Trapped?;
    }

    lemma HasGuest(r: RequestId)
      requires Valid() && At(shared, r, Next)
      ensures shared.requests[r].g.Some?
    {
      assert Reachable(shared);
      var ph := ReachableInvariant(shared);
      assert RequestOk(r, shared.requests[r], ph);
    }

    /** ServeHTTP. Whatever the guest, the next handler and all other requests do,
        the request ends, and the guest it checked out has been put back once,
        unless the result was the one that loses guests; a panic leaves ServeHTTP
        only from the guest's response, after that. It had a guest unless, in the state
        the run was in when it asked, the pool had none for it and instantiation failed
        or the runtime was closed. */
    method ServeHTTP(r: RequestId, env: Environment) returns (panicked: bool, ghost asked: seq<Action>)
      requires Valid() && r !in shared.requests
      modifies this
      ensures Valid() && At(shared, r, Ended)
      ensures panicked <==>
                shared.requests[r].took.Some? && Lo(CtxNext(env.request)) != 0 && env.response.Trapped?
      ensures old(history) < asked < history && Acquires(history[|asked|], r)
      ensures Run(Initial(), asked).Some? && TookAsAsked(Run(Initial(), asked).value, env, shared.requests[r].took)
      ensures shared.requests[r].took.None? ==> shared.down
      ensures shared.requests[r].took.Some? ==>
                && shared.requests[r].took.value in shared.logs
                && Gives(r, shared.logs[shared.requests[r].took.value])
                   == (if Leaks(CtxNext(env.request)) then 0 else 1)
    {
      Do(r, Arrive(r), env.others(0));
      asked := history;
      HandleRequest(r, env);
      panicked := false;
      if shared.requests[r].pc == Back {
        Do(r, Dispatch(r), env.others(6));
        if shared.requests[r].pc == Next {
          Others(r, env.others(7));  // the next handler; it may panic, which handleNext recovers
          panicked := HandleResponse(r, env);
        }
      }
      if shared.requests[r].took.Some? {
        Settled(r);
      }
    }

    lemma Settled(r: RequestId)
      requires Valid() && At(shared, r, Ended) && shared.requests[r].took.Some?
      ensures shared.requests[r].took.value in shared.logs
      ensures Gives(r, shared.logs[shared.requests[r].took.value]) == if Leaks(shared.requests[r].ctxNext) then 0 else 1
    {
      assert Reachable(shared);
      var ph := ReachableInvariant(shared);
      assert RequestOk(r, shared.requests[r], ph);
      GivenBackExactlyOnce(shared, r, shared.requests[r].took.value);
    }
  }
}

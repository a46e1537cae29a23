/** The script's `debounce(func, wait)`: every call of the wrapper clears
    the wrapper's pending timer and starts a new one holding the call's
    arguments, so when the timer finally fires `func` runs once, with the
    arguments of the last call.  The waiting time itself is not modelled:
    the timer firing is an explicit event. */
module Debounce {
  import opened Wrappers

  /** What can happen to one debounced wrapper: a call of the wrapper, its
      timer firing, or the timer being cleared from outside. */
  datatype TimerEvent<A> = Invoke(args: A) | Elapse | Cancel

  /** The arguments held by the pending timer after the events `h`. */
  function Pending<A>(h: seq<TimerEvent<A>>): Option<A>
  {
    if h == [] then None
    else
      match h[|h| - 1]
      case Invoke(a) => Some(a)
      case Elapse => None
      case Cancel => None
  }

  /** The arguments `func` actually ran with during `h`, in order. */
  function Runs<A>(h: seq<TimerEvent<A>>): seq<A>
  {
    if h == [] then []
    else
      var before := h[..|h| - 1];
      Runs(before) + (if h[|h| - 1].Elapse? && Pending(before).Some? then [Pending(before).value] else [])
  }

  /** A burst of calls of the wrapper. */
  function Invokes<A>(calls: seq<A>): seq<TimerEvent<A>>
  {
    seq(|calls|, i requires 0 <= i < |calls| => Invoke(calls[i]))
  }

  function InvokeCount<A>(h: seq<TimerEvent<A>>): nat
  {
    if h == [] then 0
    else InvokeCount(h[..|h| - 1]) + (if h[|h| - 1].Invoke? then 1 else 0)
  }

  /** Calls alone run nothing; they only replace the pending arguments. */
  lemma {:induction false} CallsRunNothing<A>(h: seq<TimerEvent<A>>, calls: seq<A>)
    ensures Runs(h + Invokes(calls)) == Runs(h)
    ensures calls != [] ==> Pending(h + Invokes(calls)) == Some(calls[|calls| - 1])
    ensures calls == [] ==> Pending(h + Invokes(calls)) == Pending(h)
  {
    if calls == [] {
      assert h + Invokes(calls) == h;
    } else {
      var init := calls[..|calls| - 1];
      assert Invokes(calls) == Invokes(init) + [Invoke(calls[|calls| - 1])];
      assert h + Invokes(calls) == (h + Invokes(init)) + [Invoke(calls[|calls| - 1])];
      CallsRunNothing(h, init);
    }
  }

  /** Last call wins: a burst of calls followed by the timer firing runs the
      wrapped function exactly once, with the arguments of the last call. */
  lemma {:induction false} LastCallWins<A>(h: seq<TimerEvent<A>>, calls: seq<A>)
    requires calls != []
    ensures Runs(h + Invokes(calls) + [Elapse]) == Runs(h) + [calls[|calls| - 1]]
    ensures Pending(h + Invokes(calls) + [Elapse]) == None
  {
    CallsRunNothing(h, calls);
    assert (h + Invokes(calls) + [Elapse])[..|h + Invokes(calls)|] == h + Invokes(calls);
  }

  /** A cleared timer never runs. */
  lemma {:induction false} CancelledNeverRuns<A>(h: seq<TimerEvent<A>>)
    ensures Runs(h + [Cancel, Elapse]) == Runs(h)
  {
    assert (h + [Cancel, Elapse])[..|h| + 1] == h + [Cancel];
    assert (h + [Cancel])[..|h|] == h;
  }

  /** Every run used the arguments of some call. */
  lemma {:induction false} RunsWereCalled<A>(h: seq<TimerEvent<A>>)
    ensures forall a :: a in Runs(h) ==> Invoke(a) in h
    ensures Pending(h).Some? ==> Invoke(Pending(h).value) in h
  {
    if h != [] {
      var before := h[..|h| - 1];
      RunsWereCalled(before);
      assert h == before + [h[|h| - 1]];
    }
  }

  /** The function never runs more often than the wrapper was called:
      coalescing only ever removes runs. */
  lemma {:induction false} RunsAtMostCalls<A>(h: seq<TimerEvent<A>>)
    ensures |Runs(h)| + (if Pending(h).Some? then 1 else 0) <= InvokeCount(h)
  {
    if h != [] {
      RunsAtMostCalls(h[..|h| - 1]);
    }
  }

  /** One debounced wrapper: its pending timer, holding the arguments of the
      last call.  `history` records what has happened to it. */
  class Debouncer<A> {
    var pending: Option<A>
    ghost var history: seq<TimerEvent<A>>

    ghost predicate Valid()
      reads this
    {
      pending == Pending(history)
    }

    constructor ()
      ensures Valid() && history == [] && pending == None
    {
      pending := None;
      history := [];
    }

    /** A call of the wrapper: clear the timer, start it again with `args`. */
    method Call(args: A)
      requires Valid()
      modifies this
      ensures Valid() && history == old(history) + [Invoke(args)]
      ensures pending == Some(args)
    {
      pending := Some(args);
      history := history + [Invoke(args)];
      assert history[..|history| - 1] == old(history);
    }

    /** The timer fires: the wrapped function is to run with `run`'s
        arguments, if a call was pending. */
    method Fire() returns (run: Option<A>)
      requires Valid()
      modifies this
      ensures Valid() && history == old(history) + [Elapse]
      ensures run == old(pending) && pending == None
      ensures Runs(history) == Runs(old(history)) + (if run.Some? then [run.value] else [])
    {
      run := pending;
      pending := None;
      history := history + [Elapse];
      assert history[..|history| - 1] == old(history);
    }

    /** `clearTimeout` from outside the wrapper. */
    method Clear()
      requires Valid()
      modifies this
      ensures Valid() && history == old(history) + [Cancel]
      ensures pending == None
    {
      pending := None;
      history := history + [Cancel];
      assert history[..|history| - 1] == old(history);
    }
  }
}

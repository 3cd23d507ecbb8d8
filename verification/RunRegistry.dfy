/** scripts/onboard/kyc-run.ts: `#publish`, `finish`, `emit` and `subscribe` as loops, for listeners that do not call back. */
module RunRegistry {
  import opened Wrappers
  import opened RunLog

  // ---- uninterrupted loops of the machine ----

  /** `k` turns of the innermost loops, with nothing in between. */
  function Turns<R>(r: Run<R>, k: nat): Run<R>
    decreases k
  {
    if k == 0 then r
    else if r.stack == [] || !Framed(r) then r
    else Turns(ProgressStep(r), k - 1)
  }

  /** Every listener's record with one more event. */
  function Broadcast(inbox: map<Listener, seq<nat>>, listeners: seq<Listener>, index: nat): (m: map<Listener, seq<nat>>)
    requires forall i :: 0 <= i < |listeners| ==> listeners[i] in inbox
    ensures m.Keys == inbox.Keys
  {
    if listeners == [] then inbox
    else
      var n := |listeners| - 1;
      var m := Broadcast(inbox, listeners[..n], index);
      m[listeners[n] := m[listeners[n]] + [index]]
  }

  lemma {:induction false} BroadcastFirst(inbox: map<Listener, seq<nat>>, listeners: seq<Listener>, index: nat)
    requires listeners != [] && forall i :: 0 <= i < |listeners| ==> listeners[i] in inbox
    ensures Broadcast(inbox, listeners, index) == Broadcast(inbox[listeners[0] := inbox[listeners[0]] + [index]], listeners[1..], index)
  {
    var n := |listeners| - 1;
    if n > 0 {
      BroadcastFirst(inbox, listeners[..n], index);
      assert listeners[..n][1..] == listeners[1..][..n - 1];
    }
  }

  /** What a broadcast does to one record: nothing else changes. */
  lemma {:induction false} BroadcastAt(inbox: map<Listener, seq<nat>>, listeners: seq<Listener>, index: nat, l: Listener)
    requires Distinct(listeners) && (forall i :: 0 <= i < |listeners| ==> listeners[i] in inbox) && l in inbox
    ensures Broadcast(inbox, listeners, index)[l] == if l in listeners then inbox[l] + [index] else inbox[l]
  {
    if listeners != [] {
      var n := |listeners| - 1;
      BroadcastAt(inbox, listeners[..n], index, l);
      assert listeners == listeners[..n] + [listeners[n]];
    }
  }

  /** The loop of `#publish`, run to its end. */
  lemma {:induction false} PublishTurns<R>(r: Run<R>, f: Frame<R>, below: seq<Frame<R>>)
    requires Framed(r) && r.stack == [f] + below && f.Publish?
    requires forall i :: 0 <= i < |f.remaining| ==> f.remaining[i] in r.inbox
    ensures Turns(r, |f.remaining| + 1) ==
      r.(stack := below, inbox := Broadcast(r.inbox, f.remaining, f.index),
         completions := r.completions + (if f.completion.Some? then [f.completion.value] else []))
    decreases |f.remaining|
  {
    assert r.stack[1..] == below && r.stack[0] == f;
    var next := ProgressStep(r);
    if f.remaining != [] {
      var f' := f.(remaining := f.remaining[1..], calling := true);
      assert next.stack == [f'] + below;
      StillFramed(r, next, f', below);
      PublishTurns(next, f', below);
      BroadcastFirst(r.inbox, f.remaining, f.index);
    } else {
      assert Turns(next, 0) == next;
    }
  }

  lemma StillFramed<R>(r: Run<R>, next: Run<R>, f': Frame<R>, below: seq<Frame<R>>)
    requires Framed(r) && r.stack != [] && r.stack[1..] == below && next.stack == [f'] + below && next.inbox.Keys == r.inbox.Keys
    requires f'.Publish? ==> Distinct(f'.remaining) && forall k :: 0 <= k < |f'.remaining| ==> f'.remaining[k] in r.inbox
    requires f'.Replay? ==> f'.listener in r.inbox
    ensures Framed(next)
  {
    forall i | 0 < i < |next.stack|
      ensures next.stack[i] == r.stack[i]
    {
      assert next.stack[i] == below[i - 1];
    }
  }

  /** The loop of `subscribe`, run to its end. */
  lemma {:induction false} ReplayTurns<R>(r: Run<R>, f: Frame<R>, below: seq<Frame<R>>)
    requires Framed(r) && r.stack == [f] + below && f.Replay? && f.listener in r.inbox && f.pos <= |r.events| && r.inbox[f.listener] == Iota(f.pos)
    ensures Turns(r, |r.events| - f.pos + 1) ==
      r.(stack := below, inbox := r.inbox[f.listener := Iota(|r.events|)], listeners := if r.done then r.listeners else r.listeners + [f.listener])
    decreases |r.events| - f.pos
  {
    assert r.stack[1..] == below && r.stack[0] == f;
    var next := ProgressStep(r);
    if f.pos < |r.events| {
      var f' := f.(pos := f.pos + 1, calling := true);
      assert next.stack == [f'] + below;
      IotaStep(f.pos);
      StillFramed(r, next, f', below);
      ReplayTurns(next, f', below);
      assert next.inbox[f.listener := Iota(|r.events|)] == r.inbox[f.listener := Iota(|r.events|)];
    } else {
      assert Turns(next, 0) == next;
      assert r.inbox == r.inbox[f.listener := Iota(|r.events|)];
    }
  }

  lemma JoinTurns<R>(r: Run<R>, l: Listener)
    requires r.stack == [] && !r.evicted && l !in r.inbox
    ensures Turns(Next(r, Step<R>.Subscribe(r.account, l)), |r.events| + 1) ==
      r.(inbox := r.inbox[l := Iota(|r.events|)], listeners := if r.done then r.listeners else r.listeners + [l])
  {
    var joining := Next(r, Step<R>.Subscribe(r.account, l));
    var f := Frame<R>.Replay(l, 0, false);
    assert joining.stack == [f] + [];
    ReplayTurns(joining, f, []);
    assert joining.inbox[l := Iota(|r.events|)] == r.inbox[l := Iota(|r.events|)];
  }

  // ---- the object ----

  class RunState<R> {
    const account: string
    var events: seq<Event<R>>
    var done: bool
    var completed: bool
    var listeners: seq<Listener>
    var inbox: map<Listener, seq<nat>>
    var completions: seq<Completion<R>>
    var settled: bool
    var evicted: bool
    ghost var left: set<Listener>

    /** No loop is in progress between calls. */
    ghost function Abstract(): Run<R> reads this {
      Run(account, events, done, completed, listeners, [], inbox, completions, settled, evicted, left, {})
    }

    constructor (a: string)
      ensures Abstract() == Start(a)
    {
      account, events, done, completed, listeners := a, [], false, false, [];
      inbox, completions, settled, evicted, left := map[], [], false, false, {};
    }

    ghost predicate Known() reads this {
      Distinct(listeners) && forall i :: 0 <= i < |listeners| ==> listeners[i] in inbox
    }

    method Publish(event: Event<R>)
      requires Known()
      modifies this
      ensures Known() && Abstract().(inbox := old(inbox)) == old(Abstract()).(events := old(events) + [event], done := old(done) || !event.StepEvent?)
      ensures inbox == Broadcast(old(inbox), old(listeners), |old(events)|)
    {
      events := events + [event];
      if !event.StepEvent? {
        done := true;
      }
      Dispatch(listeners, |events| - 1);
    }

    method Dispatch(copy: seq<Listener>, index: nat)
      requires forall i :: 0 <= i < |copy| ==> copy[i] in inbox
      modifies this`inbox
      ensures inbox == Broadcast(old(inbox), copy, index)
    {
      for i := 0 to |copy|
        invariant inbox.Keys == old(inbox.Keys)
        invariant inbox == Broadcast(old(inbox), copy[..i], index)
      {
        assert copy[i] in old(inbox);
        inbox := inbox[copy[i] := inbox[copy[i]] + [index]];
        assert copy[..i + 1][..i] == copy[..i];
      }
      assert copy[..|copy|] == copy;
    }

    /** The runner's `emit`: the machine's `Emit` with its loop run to the end. */
    method Emit(step: string)
      requires Known()
      modifies this
      ensures Known()
      ensures Abstract() == if old(completed) then old(Abstract()) else Turns(Next(old(Abstract()), Step<R>.Emit(step)), |old(listeners)| + 1)
    {
      ghost var before := Abstract();
      if !completed {
        Publish(StepEvent(step));
        var after := Next(before, Step<R>.Emit(step));
        PublishTurns(after, after.stack[0], []);
        NobodyOwed(before);
      }
    }

    method Finish(event: Event<R>, completion: Completion<R>)
      requires Known() && !event.StepEvent? && !completion.late && (completion.result.Some? <==> event.DoneEvent?)
      modifies this
      ensures Known()
      ensures Abstract() == if old(completed) then FinishStep(old(Abstract()), event, completion)
                            else Turns(FinishStep(old(Abstract()), event, completion), |old(listeners)| + 1)
    {
      ghost var before := Abstract();
      if completed {
        if !event.ErrorEvent? || completion.result.Some? {
          completions := completions + [completion.(late := true)];
        }
        return;
      }
      completed := true;
      Publish(event);
      completions := completions + [completion];
      ghost var after := FinishStep(before, event, completion);
      PublishTurns(after, after.stack[0], []);
      NobodyOwed(before);
    }

    /** The runner's promise settles. */
    method Settle(outcome: Result<R, string>)
      requires Known() && !settled
      modifies this
      ensures Known()
      ensures Abstract() == if old(completed) then Next(old(Abstract()), Step<R>.Settle(outcome))
                            else Turns(Next(old(Abstract()), Step<R>.Settle(outcome)), |old(listeners)| + 1)
    {
      settled := true;
      Finish(OutcomeEvent(outcome), OutcomeCompletion(outcome));
    }

    /** A new listener of the owner is called with the whole log, then kept; anyone else is turned away. */
    method Subscribe(caller: string, listener: Listener) returns (ok: bool)
      requires Known() && listener !in inbox
      modifies this
      ensures Known()
      ensures ok == (!evicted && caller == account)
      ensures Abstract() == if ok then Turns(Next(old(Abstract()), Step<R>.Subscribe(caller, listener)), |old(events)| + 1) else old(Abstract())
    {
      if evicted || caller != account {
        return false;
      }
      JoinTurns(Abstract(), listener);
      Replay(listener);
      if !done {
        listeners := listeners + [listener];
      }
      return true;
    }

    method Replay(listener: Listener)
      modifies this`inbox
      ensures inbox == old(inbox)[listener := Iota(|events|)]
    {
      inbox := inbox[listener := []];
      assert Iota(0) == [];
      for i := 0 to |events|
        invariant inbox == old(inbox)[listener := Iota(i)]
      {
        IotaStep(i);
        inbox := inbox[listener := inbox[listener] + [i]];
      }
    }

    method Unsubscribe(listener: Listener)
      requires Known() && listener in listeners
      modifies this
      ensures Known() && Abstract() == Next(old(Abstract()), Step<R>.Unsubscribe(listener))
    {
      listeners := Remove(listeners, listener);
      left := left + {listener};
      forall i | 0 <= i < |listeners|
        ensures listeners[i] in inbox
      {
        assert listeners[i] in listeners;
      }
    }
  }

  lemma NobodyOwed<R>(r: Run<R>)
    requires r.stack == [] && r.overtaken == {}
    ensures (set l | l in r.listeners && Owed(r.stack, l) != []) == {}
  {}
}

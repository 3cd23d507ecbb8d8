/**
 * scripts/onboard/kyc-run.ts: one run of `InMemoryRunRegistry`, as a machine of small steps. A listener runs
 * inside the loop that calls it and may itself emit, subscribe or unsubscribe, so the loops in progress form
 * a stack.
 */
module RunLog {
  import opened Wrappers

  type Listener = nat

  datatype Event<R> = StepEvent(step: string) | DoneEvent(result: R) | ErrorEvent(message: string)

  datatype Completion<R> = Completion(result: Option<R>, error: Option<string>, late: bool)

  /**
   * `Publish`: the loop over a copy of the listeners, delivering event number `index`; `completion` is what `finish`
   * reports when the loop is over. `Replay`: the loop over the log, which may still grow. `calling`: a listener called from this loop is running.
   */
  datatype Frame<R> =
    | Publish(index: nat, remaining: seq<Listener>, completion: Option<Completion<R>>, calling: bool)
    | Replay(listener: Listener, pos: nat, calling: bool)

  /**
   * `stack[0]` is the innermost loop. `inbox` records, by event number, what each listener was called with.
   * `left` and `overtaken` are history: who unsubscribed, and for whom an event was emitted while a loop in
   * progress still owed them an earlier one.
   */
  datatype Run<R> = Run(
    account: string, events: seq<Event<R>>, done: bool, completed: bool, listeners: seq<Listener>, stack: seq<Frame<R>>,
    inbox: map<Listener, seq<nat>>, completions: seq<Completion<R>>, settled: bool, evicted: bool,
    left: set<Listener>, overtaken: set<Listener>)

  datatype Step<R> =
    | Emit(step: string)
    | Settle(outcome: Result<R, string>)
    | Timeout(message: string)
    | Subscribe(account: string, listener: Listener)
    | Unsubscribe(listener: Listener)
    | Progress
    | Evict

  function Start<R>(account: string): Run<R> {
    Run(account, [], false, false, [], [], map[], [], false, false, {}, {})
  }

  // ---- the steps ----

  /** Code other than the loops themselves is running. */
  predicate UserCode<R>(r: Run<R>) {
    r.stack == [] || r.stack[0].calling
  }

  predicate Owes<R>(f: Frame<R>, l: Listener) {
    f.Publish? && l in f.remaining
  }

  /** The events the loops in progress will still deliver to a listener, in the order they will. */
  function Owed<R>(stack: seq<Frame<R>>, l: Listener): seq<nat> {
    if stack == [] then []
    else (if Owes(stack[0], l) then [stack[0].index] else []) + Owed(stack[1..], l)
  }

  /** `#publish` up to its loop. */
  function PublishStep<R>(r: Run<R>, event: Event<R>, completion: Option<Completion<R>>): Run<R> {
    r.(events := r.events + [event], done := r.done || !event.StepEvent?,
       stack := [Publish(|r.events|, r.listeners, completion, false)] + r.stack,
       overtaken := r.overtaken + set l | l in r.listeners && Owed(r.stack, l) != [])
  }

  /** `finish` */
  function FinishStep<R>(r: Run<R>, event: Event<R>, completion: Completion<R>): Run<R> {
    if r.completed then
      if !event.ErrorEvent? || completion.result.Some? then r.(completions := r.completions + [completion.(late := true)]) else r
    else PublishStep(r.(completed := true), event, Some(completion))
  }

  function OutcomeEvent<R>(outcome: Result<R, string>): Event<R> {
    match outcome case Ok(v) => DoneEvent(v) case Err(e) => ErrorEvent(e)
  }

  function OutcomeCompletion<R>(outcome: Result<R, string>): Completion<R> {
    match outcome case Ok(v) => Completion(Some(v), None, false) case Err(e) => Completion(None, Some(e), false)
  }

  /** One turn of the innermost loop, or its end. */
  function ProgressStep<R>(r: Run<R>): Run<R>
    requires r.stack != []
    requires forall l :: Owes(r.stack[0], l) ==> l in r.inbox
    requires r.stack[0].Replay? ==> r.stack[0].listener in r.inbox
  {
    var below := r.stack[1..];
    match r.stack[0]
    case Publish(index, remaining, completion, _) =>
      if remaining == [] then
        r.(stack := below, completions := r.completions + (if completion.Some? then [completion.value] else []))
      else
        assert Owes(r.stack[0], remaining[0]);
        r.(stack := [Publish(index, remaining[1..], completion, true)] + below,
           inbox := r.inbox[remaining[0] := r.inbox[remaining[0]] + [index]])
    case Replay(l, pos, _) =>
      if pos < |r.events| then
        r.(stack := [Replay(l, pos + 1, true)] + below, inbox := r.inbox[l := r.inbox[l] + [pos]])
      else
        r.(stack := below, listeners := if r.done then r.listeners else r.listeners + [l])
  }

  function Remove(s: seq<Listener>, l: Listener): (t: seq<Listener>)
    ensures forall x :: x in t <==> x in s && x != l
    ensures Distinct(s) ==> Distinct(t)
  {
    if s == [] then []
    else
      assert s == [s[0]] + s[1..];
      var rest := Remove(s[1..], l);
      assert forall i :: 0 <= i < |rest| ==> rest[i] in s[1..];
      if s[0] == l then rest else [s[0]] + rest
  }

  predicate Distinct(s: seq<Listener>) {
    forall i, j :: 0 <= i < j < |s| ==> s[i] != s[j]
  }

  /** A step that cannot happen now changes nothing. A runner settles once; settling and timing out are tasks of their own. */
  function Next<R>(r: Run<R>, step: Step<R>): Run<R> {
    match step
    case Emit(s) => if UserCode(r) && !r.completed then PublishStep(r, StepEvent(s), None) else r
    case Settle(outcome) =>
      if r.stack == [] && !r.settled then FinishStep(r.(settled := true), OutcomeEvent(outcome), OutcomeCompletion(outcome)) else r
    case Timeout(message) =>
      if r.stack == [] && !r.completed then FinishStep(r, ErrorEvent(message), Completion(None, Some(message), false)) else r
    case Subscribe(account, l) =>
      if UserCode(r) && !r.evicted && account == r.account && l !in r.inbox
      then r.(stack := [Replay(l, 0, false)] + r.stack, inbox := r.inbox[l := []]) else r
    case Unsubscribe(l) =>
      if UserCode(r) && l in r.listeners then r.(listeners := Remove(r.listeners, l), left := r.left + {l}) else r
    case Progress => if r.stack == [] || !Framed(r) then r else ProgressStep(r)
    case Evict => if r.stack == [] && r.done then r.(evicted := true) else r
  }

  /** Whoever a loop calls is known. */
  predicate Framed<R>(r: Run<R>) {
    forall i :: 0 <= i < |r.stack| ==>
      && (r.stack[i].Publish? ==> Distinct(r.stack[i].remaining) && forall k :: 0 <= k < |r.stack[i].remaining| ==> r.stack[i].remaining[k] in r.inbox)
      && (r.stack[i].Replay? ==> r.stack[i].listener in r.inbox)
  }

  // ---- what every run keeps ----

  function Iota(n: nat): (s: seq<nat>) {
    seq(n, i => i)
  }

  /** Each of the first `n` event numbers once. */
  ghost predicate Permutes(s: seq<nat>, n: nat) {
    multiset(s) == multiset(Iota(n))
  }

  predicate Ascending(s: seq<nat>) {
    forall i, j :: 0 <= i < j < |s| ==> s[i] < s[j]
  }

  /** At most one terminal event, and nothing after it. */
  predicate LogInv<R>(r: Run<R>) {
    && r.completed == r.done
    && (forall i :: 0 <= i < |r.events| - 1 ==> r.events[i].StepEvent?)
    && (r.done <==> r.events != [] && !r.events[|r.events| - 1].StepEvent?)
  }

  predicate Joining<R>(stack: seq<Frame<R>>, l: Listener) {
    exists i :: 0 <= i < |stack| && stack[i].Replay? && stack[i].listener == l
  }

  predicate ListenersInv<R>(r: Run<R>) {
    && Distinct(r.listeners) && (forall i :: 0 <= i < |r.listeners| ==> r.listeners[i] in r.inbox && r.listeners[i] !in r.left)
    && (forall l :: l in r.left ==> l in r.inbox)
    && (forall l :: l in r.overtaken ==> l in r.listeners || l in r.left)
  }

  predicate FrameOk<R>(r: Run<R>, f: Frame<R>) {
    match f
    case Publish(index, remaining, _, _) =>
      index < |r.events| && Distinct(remaining) && forall k :: 0 <= k < |remaining| ==> remaining[k] in r.inbox && (remaining[k] in r.listeners || remaining[k] in r.left)
    case Replay(l, pos, _) =>
      l in r.inbox && l !in r.listeners && l !in r.left && pos <= |r.events| && r.inbox[l] == Iota(pos)
  }

  predicate FramesInv<R>(r: Run<R>) {
    && (forall i :: 0 <= i < |r.stack| ==> FrameOk(r, r.stack[i]))
    && (forall i, j :: 0 <= i < j < |r.stack| && r.stack[i].Replay? && r.stack[j].Replay? ==> r.stack[i].listener != r.stack[j].listener)
  }

  /** A subscribed listener has been or will be called with every event once; in order unless it was overtaken. */
  ghost predicate Served<R>(r: Run<R>, l: Listener)
    requires l in r.inbox
  {
    var all := r.inbox[l] + Owed(r.stack, l);
    Permutes(all, |r.events|) && (l in r.overtaken <==> !Ascending(all))
  }

  ghost predicate DeliveryInv<R>(r: Run<R>) {
    && (forall l :: l in r.listeners && l in r.inbox ==> Served(r, l))
    && (forall l :: l in r.inbox && l !in r.listeners && l !in r.left && !Joining(r.stack, l) ==> r.done && r.inbox[l] == Iota(|r.events|))
  }

  /** The completion in time fires once, after the terminal event's loop; a late one at most once, after it. */
  predicate CompletionInv<R>(r: Run<R>) {
    && (forall i :: 0 <= i < |r.stack| && r.stack[i].Publish? && r.stack[i].completion.Some? ==>
          i == |r.stack| - 1 && r.done && r.completions == [] && !r.stack[i].completion.value.late)
    && (!r.done ==> r.completions == [])
    && |r.completions| <= 2
    && (|r.completions| > 0 ==> !r.completions[0].late)
    && (|r.completions| == 2 ==> r.settled && r.completions[1].late && r.completions[1].result.Some?)
    && (r.done && r.completions == [] ==> r.stack != [] && r.stack[|r.stack| - 1].Publish? && r.stack[|r.stack| - 1].completion.Some?)
  }

  ghost predicate Inv<R>(r: Run<R>) {
    LogInv(r) && ListenersInv(r) && FramesInv(r) && DeliveryInv(r) && CompletionInv(r)
  }

  lemma InvFramed<R>(r: Run<R>)
    requires FramesInv(r)
    ensures Framed(r)
  {
    forall i | 0 <= i < |r.stack|
      ensures r.stack[i].Publish? ==> Distinct(r.stack[i].remaining) && forall k :: 0 <= k < |r.stack[i].remaining| ==> r.stack[i].remaining[k] in r.inbox
      ensures r.stack[i].Replay? ==> r.stack[i].listener in r.inbox
    {
      assert FrameOk(r, r.stack[i]);
    }
  }

  lemma OwedPush<R>(f: Frame<R>, stack: seq<Frame<R>>, l: Listener)
    ensures Owed([f] + stack, l) == (if Owes(f, l) then [f.index] else []) + Owed(stack, l)
  {
    assert ([f] + stack)[1..] == stack;
  }

  lemma Cons<R>(stack: seq<Frame<R>>)
    requires stack != []
    ensures stack == [stack[0]] + stack[1..]
  {}

  lemma JoiningPush<R>(f: Frame<R>, stack: seq<Frame<R>>, l: Listener)
    ensures Joining([f] + stack, l) <==> (f.Replay? && f.listener == l) || Joining(stack, l)
  {
    var all := [f] + stack;
    if Joining(stack, l) {
      var i :| 0 <= i < |stack| && stack[i].Replay? && stack[i].listener == l;
      assert all[i + 1] == stack[i];
    }
    if f.Replay? && f.listener == l {
      assert all[0] == f;
    }
    if Joining(all, l) {
      var i :| 0 <= i < |all| && all[i].Replay? && all[i].listener == l;
      if i > 0 {
        assert stack[i - 1] == all[i];
      }
    }
  }

  /** Owed events are events. */
  lemma {:induction false} OwedBelow<R>(stack: seq<Frame<R>>, l: Listener, n: nat)
    requires forall i :: 0 <= i < |stack| && stack[i].Publish? ==> stack[i].index < n
    ensures forall k :: 0 <= k < |Owed(stack, l)| ==> Owed(stack, l)[k] < n
  {
    if stack != [] {
      OwedBelow(stack[1..], l, n);
    }
  }

  lemma IotaStep(n: nat)
    ensures Iota(n + 1) == Iota(n) + [n]
  {}

  /** A new event, put before what is still owed. */
  lemma NewEvent(seen: seq<nat>, owed: seq<nat>, n: nat)
    requires Permutes(seen + owed, n)
    ensures Permutes(seen + ([n] + owed), n + 1)
    ensures Ascending(seen + ([n] + owed)) <==> Ascending(seen + owed) && owed == []
  {
    IotaStep(n);
    var all, all' := seen + owed, seen + ([n] + owed);
    assert multiset(all') == multiset(all) + multiset{n};
    forall k | 0 <= k < |all|
      ensures all[k] < n
    {
      assert all[k] in multiset(all);
      assert all[k] in Iota(n);
    }
    if owed == [] {
      assert [n] + owed == [n];
      assert all == seen && all' == seen + [n];
      AppendMax(seen, n);
    } else {
      assert all'[|seen|] == n && all'[|seen| + 1] == owed[0] == all[|seen|];
    }
  }

  lemma AppendMax(seen: seq<nat>, n: nat)
    requires forall k :: 0 <= k < |seen| ==> seen[k] < n
    ensures Ascending(seen + [n]) <==> Ascending(seen)
  {
    var all := seen + [n];
    assert forall k :: 0 <= k < |seen| ==> all[k] == seen[k];
  }

  lemma PermutesPrefix(s: seq<nat>, top: nat)
    requires s != [] && s[|s| - 1] == top && Permutes(s, top + 1)
    ensures Permutes(s[..|s| - 1], top)
  {
    IotaStep(top);
    assert s == s[..|s| - 1] + [top];
    assert multiset(s) == multiset(s[..|s| - 1]) + multiset{top};
    assert multiset(Iota(top + 1)) == multiset(Iota(top)) + multiset{top};
    assert multiset(s[..|s| - 1]) == multiset(s) - multiset{top};
    assert multiset(Iota(top)) == multiset(Iota(top + 1)) - multiset{top};
  }

  lemma LastIsTop(s: seq<nat>, top: nat)
    requires Permutes(s, top + 1) && Ascending(s)
    ensures s != [] && s[|s| - 1] == top
  {
    assert Iota(top + 1)[top] == top;
    assert top in multiset(s);
    var i :| 0 <= i < |s| && s[i] == top;
    assert s[|s| - 1] in multiset(s);
    assert s[|s| - 1] in Iota(top + 1);
  }

  lemma {:induction false} AscendingIsIota(s: seq<nat>, n: nat)
    requires Permutes(s, n) && Ascending(s)
    ensures s == Iota(n)
  {
    if n == 0 {
      assert |multiset(s)| == |s|;
    } else {
      LastIsTop(s, n - 1);
      PermutesPrefix(s, n - 1);
      AscendingIsIota(s[..|s| - 1], n - 1);
      IotaStep(n - 1);
      assert s == s[..|s| - 1] + [n - 1];
    }
  }

  lemma AscendingIota(s: seq<nat>, n: nat)
    requires Permutes(s, n)
    ensures Ascending(s) <==> s == Iota(n)
  {
    if Ascending(s) {
      AscendingIsIota(s, n);
    }
  }

  // ---- publishing ----

  lemma PublishKeepsFrames<R>(r: Run<R>, event: Event<R>, completion: Option<Completion<R>>)
    requires ListenersInv(r) && FramesInv(r)
    ensures FramesInv(PublishStep(r, event, completion))
  {
    var r' := PublishStep(r, event, completion);
    forall i | 0 <= i < |r'.stack|
      ensures FrameOk(r', r'.stack[i])
    {
      if i > 0 {
        assert r'.stack[i] == r.stack[i - 1];
        assert FrameOk(r, r.stack[i - 1]);
      }
    }
    forall i, j | 0 <= i < j < |r'.stack| && r'.stack[i].Replay? && r'.stack[j].Replay?
      ensures r'.stack[i].listener != r'.stack[j].listener
    {
      assert r'.stack[i] == r.stack[i - 1] && r'.stack[j] == r.stack[j - 1];
    }
  }

  lemma PublishServes<R>(r: Run<R>, event: Event<R>, completion: Option<Completion<R>>, l: Listener)
    requires l in r.inbox && l in r.listeners && Served(r, l)
    ensures Served(PublishStep(r, event, completion), l)
  {
    var r' := PublishStep(r, event, completion);
    OwedPush(r'.stack[0], r.stack, l);
    NewEvent(r.inbox[l], Owed(r.stack, l), |r.events|);
  }

  lemma PublishKeepsDelivery<R>(r: Run<R>, event: Event<R>, completion: Option<Completion<R>>)
    requires ListenersInv(r) && DeliveryInv(r) && !r.done
    ensures DeliveryInv(PublishStep(r, event, completion)) && ListenersInv(PublishStep(r, event, completion))
  {
    var r' := PublishStep(r, event, completion);
    forall l | l in r'.listeners && l in r'.inbox
      ensures Served(r', l)
    {
      PublishServes(r, event, completion, l);
    }
    forall l | l in r'.inbox && l !in r'.listeners && l !in r'.left
      ensures Joining(r'.stack, l)
    {
      JoiningPush(r'.stack[0], r.stack, l);
    }
  }

  lemma PublishKeepsInv<R>(r: Run<R>, event: Event<R>, completion: Option<Completion<R>>)
    requires ListenersInv(r) && FramesInv(r) && DeliveryInv(r) && CompletionInv(r) && !r.done
    requires forall i :: 0 <= i < |r.events| ==> r.events[i].StepEvent?
    requires r.completed == !event.StepEvent? == completion.Some?
    requires completion.Some? ==> r.stack == [] && !completion.value.late
    ensures Inv(PublishStep(r, event, completion))
  {
    PublishKeepsFrames(r, event, completion);
    PublishKeepsDelivery(r, event, completion);
    var r' := PublishStep(r, event, completion);
    if completion.Some? {
      assert r'.stack == [r'.stack[0]];
    } else {
      forall i | 0 <= i < |r'.stack|
        ensures !(r'.stack[i].Publish? && r'.stack[i].completion.Some?)
      {
        if i > 0 {
          assert r'.stack[i] == r.stack[i - 1];
        }
      }
    }
  }

  // ---- one turn of a loop ----

  /** The stack with a new top. */
  ghost predicate Retops<R>(r: Run<R>, r': Run<R>) {
    && r.stack != [] && |r'.stack| == |r.stack| && r'.stack[1..] == r.stack[1..]
    && r'.account == r.account && r'.events == r.events && r'.done == r.done && r'.completed == r.completed && r'.listeners == r.listeners
    && r'.completions == r.completions && r'.settled == r.settled && r'.left == r.left && r'.overtaken == r.overtaken
    && r'.inbox.Keys == r.inbox.Keys
  }

  lemma BelowSame<R>(r: Run<R>, r': Run<R>, i: nat)
    requires Retops(r, r') && 0 < i < |r.stack|
    ensures r'.stack[i] == r.stack[i]
  {
    assert r'.stack[1..][i - 1] == r.stack[1..][i - 1];
  }

  lemma RetopCompletion<R>(r: Run<R>, r': Run<R>)
    requires Retops(r, r') && CompletionInv(r)
    requires r'.stack[0].Publish? == r.stack[0].Publish? && (r.stack[0].Publish? ==> r'.stack[0].completion == r.stack[0].completion)
    ensures CompletionInv(r')
  {
    forall i | 0 <= i < |r.stack|
      ensures r'.stack[i].Publish? == r.stack[i].Publish? && (r.stack[i].Publish? ==> r'.stack[i].completion == r.stack[i].completion)
    {
      if i > 0 {
        BelowSame(r, r', i);
      }
    }
    forall i | 0 <= i < |r'.stack| && r'.stack[i].Publish? && r'.stack[i].completion.Some?
      ensures i == |r'.stack| - 1 && r'.done && r'.completions == [] && !r'.stack[i].completion.value.late
    {
      assert r.stack[i].Publish? && r.stack[i].completion.Some?;
    }
  }

  /** The records of listeners that are joining are untouched below the top. */
  lemma RetopFrames<R>(r: Run<R>, r': Run<R>)
    requires Retops(r, r') && FramesInv(r) && FrameOk(r', r'.stack[0])
    requires forall i :: 0 < i < |r.stack| && r.stack[i].Replay? && r.stack[i].listener in r.inbox ==> r'.inbox[r.stack[i].listener] == r.inbox[r.stack[i].listener]
    requires r'.stack[0].Replay? ==> r.stack[0].Replay? && r.stack[0].listener == r'.stack[0].listener
    ensures FramesInv(r')
  {
    forall i | 0 <= i < |r'.stack|
      ensures FrameOk(r', r'.stack[i])
    {
      if i > 0 {
        BelowSame(r, r', i);
        assert FrameOk(r, r.stack[i]);
      }
    }
    forall i, j | 0 <= i < j < |r'.stack| && r'.stack[i].Replay? && r'.stack[j].Replay?
      ensures r'.stack[i].listener != r'.stack[j].listener
    {
      BelowSame(r, r', j);
      if i > 0 {
        BelowSame(r, r', i);
      }
    }
  }

  lemma RetopJoining<R>(r: Run<R>, r': Run<R>, l: Listener)
    requires Retops(r, r') && r'.stack[0].Replay? == r.stack[0].Replay?
    requires r.stack[0].Replay? ==> r'.stack[0].listener == r.stack[0].listener
    ensures Joining(r'.stack, l) <==> Joining(r.stack, l)
  {
    Cons(r.stack);
    Cons(r'.stack);
    JoiningPush(r.stack[0], r.stack[1..], l);
    JoiningPush(r'.stack[0], r'.stack[1..], l);
  }

  lemma DeliverServes<R>(r: Run<R>, l: Listener)
    requires Framed(r) && r.stack != [] && r.stack[0].Publish? && r.stack[0].remaining != [] && l in r.inbox && Served(r, l)
    ensures l in ProgressStep(r).inbox && Served(ProgressStep(r), l)
  {
    var f, below := r.stack[0], r.stack[1..];
    var r' := ProgressStep(r);
    Cons(r.stack);
    Cons(r'.stack);
    OwedPush(f, below, l);
    OwedPush(r'.stack[0], below, l);
    if l == f.remaining[0] {
      assert Owes(f, l) && !Owes(r'.stack[0], l);
      assert r.inbox[l] + ([f.index] + Owed(below, l)) == r'.inbox[l] + Owed(below, l);
      assert [] + Owed(below, l) == Owed(below, l);
    } else {
      assert Owes(f, l) == Owes(r'.stack[0], l);
    }
    assert r'.inbox[l] + Owed(r'.stack, l) == r.inbox[l] + Owed(r.stack, l);
  }

  /** Only the called listener's record changes. */
  lemma DeliverKeepsInv<R>(r: Run<R>)
    requires Inv(r) && r.stack != [] && r.stack[0].Publish? && r.stack[0].remaining != []
    ensures Framed(r) && Inv(ProgressStep(r))
  {
    InvFramed(r);
    DeliverKeepsFrames(r);
    RetopCompletion(r, ProgressStep(r));
    DeliverKeepsDelivery(r);
  }

  lemma DeliverKeepsFrames<R>(r: Run<R>)
    requires Framed(r) && FramesInv(r) && r.stack != [] && r.stack[0].Publish? && r.stack[0].remaining != []
    ensures FramesInv(ProgressStep(r)) && Retops(r, ProgressStep(r))
    ensures r.stack[0].remaining[0] in r.listeners || r.stack[0].remaining[0] in r.left
  {
    var f := r.stack[0];
    var r' := ProgressStep(r);
    var called := f.remaining[0];
    assert FrameOk(r, f);
    assert called in r.listeners || called in r.left;
    assert FrameOk(r', r'.stack[0]);
    forall i | 0 < i < |r.stack| && r.stack[i].Replay? && r.stack[i].listener in r.inbox
      ensures r'.inbox[r.stack[i].listener] == r.inbox[r.stack[i].listener]
    {
      assert FrameOk(r, r.stack[i]);
    }
    RetopFrames(r, r');
  }

  lemma DeliverKeepsDelivery<R>(r: Run<R>)
    requires Framed(r) && DeliveryInv(r) && ListenersInv(r) && r.stack != [] && r.stack[0].Publish? && r.stack[0].remaining != []
    requires r.stack[0].remaining[0] in r.listeners || r.stack[0].remaining[0] in r.left
    ensures DeliveryInv(ProgressStep(r)) && ListenersInv(ProgressStep(r))
  {
    var r' := ProgressStep(r);
    forall l | l in r'.listeners && l in r'.inbox
      ensures Served(r', l)
    {
      assert Served(r, l);
      DeliverServes(r, l);
    }
    forall l | l in r'.inbox && l !in r'.listeners && l !in r'.left && !Joining(r'.stack, l)
      ensures r'.done && r'.inbox[l] == Iota(|r'.events|)
    {
      RetopJoining(r, r', l);
    }
  }

  /** The stack without its top. */
  lemma PopFrames<R>(r: Run<R>, r': Run<R>)
    requires FramesInv(r) && r.stack != [] && r'.stack == r.stack[1..]
    requires r'.events == r.events && r'.inbox == r.inbox && r'.left == r.left
    requires forall l :: l in r'.listeners <==> l in r.listeners || (r.stack[0].Replay? && !r.done && l == r.stack[0].listener)
    ensures FramesInv(r')
  {
    forall i | 0 <= i < |r'.stack|
      ensures FrameOk(r', r'.stack[i])
    {
      assert r'.stack[i] == r.stack[i + 1];
      assert FrameOk(r, r.stack[i + 1]);
    }
  }

  lemma PopPublishKeepsInv<R>(r: Run<R>)
    requires Inv(r) && r.stack != [] && r.stack[0].Publish? && r.stack[0].remaining == []
    ensures Framed(r) && Inv(ProgressStep(r))
  {
    InvFramed(r);
    var f, below := r.stack[0], r.stack[1..];
    var r' := ProgressStep(r);
    Cons(r.stack);
    PopFrames(r, r');
    forall l
      ensures Owed(r'.stack, l) == Owed(r.stack, l) && (Joining(r'.stack, l) <==> Joining(r.stack, l))
    {
      OwedPush(f, below, l);
      JoiningPush(f, below, l);
    }
    assert forall l :: l in r'.listeners && l in r'.inbox ==> Served(r, l);
    forall i | 0 <= i < |below|
      ensures below[i] == r.stack[i + 1]
    {}
  }

  lemma ReplayKeepsInv<R>(r: Run<R>)
    requires Inv(r) && r.stack != [] && r.stack[0].Replay? && r.stack[0].pos < |r.events|
    ensures Framed(r) && Inv(ProgressStep(r))
  {
    InvFramed(r);
    var f := r.stack[0];
    var r' := ProgressStep(r);
    assert FrameOk(r, f);
    IotaStep(f.pos);
    assert FrameOk(r', r'.stack[0]);
    RetopFrames(r, r');
    RetopCompletion(r, r');
    ReplayKeepsDelivery(r);
  }

  lemma RetopServes<R>(r: Run<R>, r': Run<R>, l: Listener)
    requires Retops(r, r') && l in r.inbox && r'.inbox[l] == r.inbox[l] && Served(r, l)
    requires !Owes(r.stack[0], l) && !Owes(r'.stack[0], l)
    ensures Served(r', l)
  {
    Cons(r.stack);
    Cons(r'.stack);
    OwedPush(r.stack[0], r.stack[1..], l);
    OwedPush(r'.stack[0], r.stack[1..], l);
    assert Owed(r'.stack, l) == Owed(r.stack, l);
  }

  lemma ReplayKeepsDelivery<R>(r: Run<R>)
    requires Framed(r) && DeliveryInv(r) && ListenersInv(r) && r.stack != [] && r.stack[0].Replay? && r.stack[0].pos < |r.events|
    requires r.stack[0].listener !in r.listeners
    ensures DeliveryInv(ProgressStep(r)) && ListenersInv(ProgressStep(r))
  {
    var r' := ProgressStep(r);
    forall l | l in r'.listeners && l in r'.inbox
      ensures Served(r', l)
    {
      RetopServes(r, r', l);
    }
    assert Joining(r.stack, r.stack[0].listener);
    forall l | l in r'.inbox && l !in r'.listeners && l !in r'.left && !Joining(r'.stack, l)
      ensures r'.done && r'.inbox[l] == Iota(|r'.events|)
    {
      RetopJoining(r, r', l);
    }
  }

  /** Nothing is owed to a listener no loop calls. */
  lemma {:induction false} OwedNothing<R>(stack: seq<Frame<R>>, l: Listener)
    requires forall i :: 0 <= i < |stack| ==> !Owes(stack[i], l)
    ensures Owed(stack, l) == []
  {
    if stack != [] {
      OwedNothing(stack[1..], l);
    }
  }

  lemma PopReplayKeepsInv<R>(r: Run<R>)
    requires Inv(r) && r.stack != [] && r.stack[0].Replay? && r.stack[0].pos >= |r.events|
    ensures Framed(r) && Inv(ProgressStep(r))
  {
    InvFramed(r);
    var r' := ProgressStep(r);
    var joined := r.stack[0].listener;
    assert FrameOk(r, r.stack[0]);
    PopFrames(r, r');
    forall i | 0 <= i < |r'.stack|
      ensures r'.stack[i] == r.stack[i + 1] && !Owes(r'.stack[i], joined)
    {
      assert FrameOk(r, r.stack[i + 1]);
    }
    OwedNothing(r'.stack, joined);
    PopReplayKeepsDelivery(r);
  }

  lemma PoppedServes<R>(r: Run<R>, r': Run<R>, l: Listener)
    requires r.stack != [] && !Owes(r.stack[0], l) && r'.stack == r.stack[1..]
    requires r'.events == r.events && r'.overtaken == r.overtaken && r'.inbox == r.inbox && l in r.inbox && Served(r, l)
    ensures Served(r', l)
  {
    Cons(r.stack);
    OwedPush(r.stack[0], r.stack[1..], l);
    assert [] + Owed(r'.stack, l) == Owed(r'.stack, l);
  }

  lemma PoppedJoining<R>(stack: seq<Frame<R>>, l: Listener)
    requires stack != [] && stack[0].Replay?
    ensures Joining(stack, l) <==> l == stack[0].listener || Joining(stack[1..], l)
  {
    Cons(stack);
    JoiningPush(stack[0], stack[1..], l);
  }

  lemma JoinedServes<R>(r: Run<R>, l: Listener)
    requires l in r.inbox && r.inbox[l] == Iota(|r.events|) && Owed(r.stack, l) == [] && l !in r.overtaken
    ensures Served(r, l)
  {
    assert r.inbox[l] + [] == Iota(|r.events|);
  }

  lemma PopReplayKeepsDelivery<R>(r: Run<R>)
    requires Framed(r) && DeliveryInv(r) && ListenersInv(r) && r.stack != [] && r.stack[0].Replay? && r.stack[0].pos >= |r.events|
    requires var l := r.stack[0].listener;
      l in r.inbox && l !in r.listeners && l !in r.left && r.inbox[l] == Iota(|r.events|) && Owed(r.stack[1..], l) == []
    ensures DeliveryInv(ProgressStep(r)) && ListenersInv(ProgressStep(r))
  {
    var r' := ProgressStep(r);
    forall l | l in r'.listeners && l in r'.inbox
      ensures Served(r', l)
    {
      if l in r.listeners {
        PoppedServes(r, r', l);
      } else {
        JoinedServes(r', l);
      }
    }
    forall l | l in r'.inbox && l !in r'.listeners && l !in r'.left && !Joining(r'.stack, l)
      ensures r'.done && r'.inbox[l] == Iota(|r'.events|)
    {
      PoppedJoining(r.stack, l);
    }
  }

  lemma ProgressKeepsInv<R>(r: Run<R>)
    requires Inv(r) && r.stack != []
    ensures Framed(r) && Inv(ProgressStep(r))
  {
    match r.stack[0]
    case Publish(_, remaining, _, _) =>
      if remaining == [] {
        PopPublishKeepsInv(r);
      } else {
        DeliverKeepsInv(r);
      }
    case Replay(_, pos, _) =>
      if pos < |r.events| {
        ReplayKeepsInv(r);
      } else {
        PopReplayKeepsInv(r);
      }
  }

  // ---- the other steps ----

  lemma SubscribeKeepsInv<R>(r: Run<R>, r': Run<R>, l: Listener)
    requires Inv(r) && l !in r.inbox && r' == r.(stack := [Replay(l, 0, false)] + r.stack, inbox := r.inbox[l := []])
    ensures Inv(r')
  {
    var f := r'.stack[0];
    forall i | 0 <= i < |r'.stack|
      ensures FrameOk(r', r'.stack[i]) && (i > 0 ==> r'.stack[i] == r.stack[i - 1])
    {
      if i > 0 {
        assert FrameOk(r, r.stack[i - 1]);
      }
    }
    forall i, j | 0 <= i < j < |r'.stack| && r'.stack[i].Replay? && r'.stack[j].Replay?
      ensures r'.stack[i].listener != r'.stack[j].listener
    {
      assert FrameOk(r, r.stack[j - 1]);
    }
    forall x | x in r'.listeners && x in r'.inbox
      ensures Served(r', x)
    {
      OwedPush(f, r.stack, x);
      assert Served(r, x);
      assert [] + Owed(r.stack, x) == Owed(r.stack, x);
    }
    forall x
      ensures Joining(r'.stack, x) <==> x == l || Joining(r.stack, x)
    {
      JoiningPush(f, r.stack, x);
    }
  }

  lemma LeftFrames<R>(r: Run<R>, r': Run<R>, l: Listener)
    requires FramesInv(r) && l in r.listeners && r' == r.(listeners := Remove(r.listeners, l), left := r.left + {l})
    ensures FramesInv(r')
  {
    forall i | 0 <= i < |r'.stack|
      ensures FrameOk(r', r'.stack[i])
    {
      assert FrameOk(r, r.stack[i]);
    }
  }

  lemma LeftListeners<R>(r: Run<R>, r': Run<R>, l: Listener)
    requires ListenersInv(r) && l in r.listeners && r' == r.(listeners := Remove(r.listeners, l), left := r.left + {l})
    ensures ListenersInv(r')
  {
    forall i | 0 <= i < |r'.listeners|
      ensures r'.listeners[i] in r'.inbox && r'.listeners[i] !in r'.left
    {
      assert r'.listeners[i] in r'.listeners;
    }
  }

  lemma {:induction false} UnsubscribeKeepsInv<R>(r: Run<R>, r': Run<R>, l: Listener)
    requires Inv(r) && l in r.listeners && r' == r.(listeners := Remove(r.listeners, l), left := r.left + {l})
    ensures Inv(r')
  {
    LeftFrames(r, r', l);
    LeftListeners(r, r', l);
    forall x | x in r'.listeners && x in r'.inbox
      ensures Served(r', x)
    {
      assert Served(r, x);
    }
  }

  lemma EmitKeepsInv<R>(r: Run<R>, step: string)
    requires Inv(r) && !r.completed
    ensures Inv(PublishStep(r, StepEvent(step), None))
  {
    PublishKeepsInv(r, StepEvent(step), None);
  }

  lemma FinishKeepsInv<R>(r: Run<R>, event: Event<R>, completion: Completion<R>)
    requires Inv(r) && !r.completed && r.stack == [] && !event.StepEvent? && !completion.late
    ensures Inv(PublishStep(r.(completed := true), event, Some(completion)))
  {
    var c := r.(completed := true);
    assert forall l :: l in r.listeners && l in r.inbox && Served(r, l) ==> Served(c, l);
    PublishKeepsInv(c, event, Some(completion));
  }

  lemma SettledKeepsInv<R>(r: Run<R>)
    requires Inv(r) && r.stack == []
    ensures Inv(r.(settled := true))
  {
    var c := r.(settled := true);
    assert forall l :: l in r.listeners && l in r.inbox && Served(r, l) ==> Served(c, l);
  }

  lemma LateKeepsInv<R>(r: Run<R>, late: Completion<R>)
    requires Inv(r) && r.stack == [] && r.done && |r.completions| == 1 && r.settled && late.late && late.result.Some?
    ensures Inv(r.(completions := r.completions + [late]))
  {
    var c := r.(completions := r.completions + [late]);
    assert forall l :: l in r.listeners && l in r.inbox && Served(r, l) ==> Served(c, l);
  }

  lemma SettleKeepsInv<R>(r: Run<R>, outcome: Result<R, string>)
    requires Framed(r) && Inv(r) && r.stack == [] && !r.settled
    ensures Inv(Next(r, Settle(outcome)))
  {
    var c := r.(settled := true);
    SettledKeepsInv(r);
    if !r.completed {
      FinishKeepsInv(c, OutcomeEvent(outcome), OutcomeCompletion(outcome));
    } else if outcome.Ok? {
      LateKeepsInv(c, OutcomeCompletion(outcome).(late := true));
    }
  }

  lemma EvictKeepsInv<R>(r: Run<R>)
    requires Inv(r)
    ensures Inv(r.(evicted := true))
  {
    var c := r.(evicted := true);
    assert forall l :: l in r.listeners && l in r.inbox && Served(r, l) ==> Served(c, l);
    forall i | 0 <= i < |c.stack|
      ensures FrameOk(c, c.stack[i])
    {
      assert FrameOk(r, r.stack[i]);
    }
  }

  lemma NextKeepsInv<R>(r: Run<R>, step: Step<R>)
    requires Inv(r)
    ensures Framed(r) && Inv(Next(r, step))
  {
    InvFramed(r);
    match step
    case Emit(s) => if UserCode(r) && !r.completed { EmitKeepsInv(r, s); }
    case Settle(outcome) => if r.stack == [] && !r.settled { SettleKeepsInv(r, outcome); }
    case Timeout(message) => if r.stack == [] && !r.completed { FinishKeepsInv(r, ErrorEvent(message), Completion(None, Some(message), false)); }
    case Subscribe(account, l) =>
      if UserCode(r) && !r.evicted && account == r.account && l !in r.inbox {
        SubscribeKeepsInv(r, Next(r, step), l);
      }
    case Unsubscribe(l) => if UserCode(r) && l in r.listeners { UnsubscribeKeepsInv(r, Next(r, step), l); }
    case Progress => if r.stack != [] { ProgressKeepsInv(r); }
    case Evict => if r.stack == [] && r.done { EvictKeepsInv(r); }
  }

  lemma StartInv<R>(account: string)
    ensures Inv<R>(Start(account))
  {}

  /** The state after any interleaving of steps. */
  function After<R>(account: string, steps: seq<Step<R>>): Run<R> {
    if steps == [] then Start(account) else Next(After(account, steps[..|steps| - 1]), steps[|steps| - 1])
  }

  lemma {:induction false} InvHolds<R>(account: string, steps: seq<Step<R>>)
    ensures Inv(After(account, steps))
  {
    if steps == [] {
      StartInv<R>(account);
    } else {
      InvHolds(account, steps[..|steps| - 1]);
      NextKeepsInv(After(account, steps[..|steps| - 1]), steps[|steps| - 1]);
    }
  }

  // ---- what a subscriber sees ----

  /**
   * Once no loop is in progress, a subscriber that has stayed has been called with every event of the log once;
   * in the log's order exactly when no event was emitted while it was still owed an earlier one.
   */
  lemma Delivery<R>(account: string, steps: seq<Step<R>>, l: Listener)
    requires var r := After(account, steps); r.stack == [] && l in r.inbox && l !in r.left
    ensures var r := After(account, steps);
      && Permutes(r.inbox[l], |r.events|)
      && (r.inbox[l] == Iota(|r.events|) <==> l !in r.overtaken)
  {
    InvHolds(account, steps);
    DeliveredTo(After(account, steps), l);
  }

  lemma DeliveredTo<R>(r: Run<R>, l: Listener)
    requires ListenersInv(r) && DeliveryInv(r) && r.stack == [] && l in r.inbox && l !in r.left
    ensures Permutes(r.inbox[l], |r.events|) && (r.inbox[l] == Iota(|r.events|) <==> l !in r.overtaken)
  {
    if l in r.listeners {
      assert Served(r, l);
      assert r.inbox[l] + [] == r.inbox[l];
      AscendingIota(r.inbox[l], |r.events|);
    } else {
      assert r.inbox[l] == Iota(|r.events|);
    }
  }

  /** The log holds at most one terminal event, the last; it holds one exactly when the run is over. */
  lemma OneTerminalEvent<R>(account: string, steps: seq<Step<R>>, i: nat)
    requires i < |After(account, steps).events|
    ensures var r := After(account, steps); !r.events[i].StepEvent? <==> r.done && i == |r.events| - 1
  {
    InvHolds(account, steps);
    assert LogInv(After(account, steps));
  }

  /** Nothing is published after a terminal event, and no event is ever withdrawn or changed. */
  lemma {:induction false} LogOnlyGrows<R>(account: string, steps: seq<Step<R>>, step: Step<R>)
    ensures var r, r' := After(account, steps), After(account, steps + [step]);
      && |r.events| <= |r'.events| && r'.events[..|r.events|] == r.events && (r.done ==> r'.events == r.events && r'.done)
  {
    assert (steps + [step])[..|steps|] == steps;
    InvHolds(account, steps);
    NextLog(After(account, steps), step);
  }

  lemma NextLog<R>(r: Run<R>, step: Step<R>)
    requires LogInv(r)
    ensures var r' := Next(r, step);
      |r.events| <= |r'.events| && r'.events[..|r.events|] == r.events && (r.done ==> r'.events == r.events && r'.done)
  {}

  /** Between loops: one completion in time for a finished run, then at most a late one, which carries a result. */
  lemma Completions<R>(account: string, steps: seq<Step<R>>)
    requires After(account, steps).stack == []
    ensures var r := After(account, steps);
      && (|r.completions| > 0 <==> r.done) && |r.completions| <= 2
      && forall i :: 0 <= i < |r.completions| ==> (r.completions[i].late <==> i == 1) && (i == 1 ==> r.settled && r.completions[i].result.Some?)
  {
    InvHolds(account, steps);
    CompletionsOf(After(account, steps));
  }

  lemma CompletionsOf<R>(r: Run<R>)
    requires CompletionInv(r) && r.stack == []
    ensures (|r.completions| > 0 <==> r.done) && |r.completions| <= 2
    ensures forall i :: 0 <= i < |r.completions| ==> (r.completions[i].late <==> i == 1) && (i == 1 ==> r.settled && r.completions[i].result.Some?)
  {}

  /**
   * What ends a run is what happened: a runner that settles in time publishes its result or its failure, a timeout the
   * message of the timeout, and a runner that is late publishes nothing and reports a result only.
   */
  lemma EndingSays<R>(account: string, steps: seq<Step<R>>, step: Step<R>)
    requires step.Settle? || step.Timeout?
    requires var r := After(account, steps); r.stack == [] && (step.Settle? ==> !r.settled)
    ensures var r, r' := After(account, steps), After(account, steps + [step]);
      var ending := if step.Timeout? then ErrorEvent(step.message) else if step.outcome.Ok? then DoneEvent(step.outcome.value) else ErrorEvent(step.outcome.error);
      && r'.events == r.events + (if r.done then [] else [ending]) && r'.done
      && (r.done ==> r'.completions == r.completions + if step.Settle? && step.outcome.Ok? then [Completion(Some(step.outcome.value), None, true)] else [])
  {
    InvHolds(account, steps);
    assert LogInv(After(account, steps));
    assert (steps + [step])[..|steps|] == steps;
  }

  /** A runner's step is published as it is, while the run is open. */
  lemma EmittedSays<R>(account: string, steps: seq<Step<R>>, text: string)
    requires After(account, steps).stack == []
    ensures var r, r' := After(account, steps), After(account, steps + [Emit(text)]);
      r'.events == r.events + (if r.done then [] else [StepEvent(text)]) && r'.done == r.done
  {
    InvHolds(account, steps);
    assert LogInv(After(account, steps));
    assert (steps + [Step<R>.Emit(text)])[..|steps|] == steps;
  }

  lemma OvertakenStep<R>(r: Run<R>, step: Step<R>)
    requires step.Emit? ==> r.stack == []
    ensures Next(r, step).overtaken == r.overtaken
  {
    assert forall l :: Owed<R>([], l) == [];
  }

  /** A run given state by state. */
  lemma {:induction false} Trace<R>(account: string, steps: seq<Step<R>>, states: seq<Run<R>>)
    requires |states| == |steps| + 1 && states[0] == Start(account)
    requires forall i :: 0 <= i < |steps| ==> Becomes(states[i], steps[i], states[i + 1])
    ensures After(account, steps) == states[|steps|]
  {
    if steps != [] {
      var k := |steps| - 1;
      Trace(account, steps[..k], states[..k + 1]);
      assert Becomes(states[k], steps[k], states[k + 1]);
    }
  }

  ghost predicate Becomes<R>(r: Run<R>, step: Step<R>, r': Run<R>) {
    Framed(r) && r' == Next(r, step)
  }

  /** Nobody is overtaken when events are emitted only between loops, as the runners do. */
  lemma {:induction false} RunnersOvertakeNobody<R>(account: string, steps: seq<Step<R>>)
    requires forall i :: 0 <= i < |steps| && steps[i].Emit? ==> After(account, steps[..i]).stack == []
    ensures After(account, steps).overtaken == {}
  {
    if steps != [] {
      var k := |steps| - 1;
      var r := After(account, steps[..k]);
      OvertakenStep(r, steps[k]);
      forall i | 0 <= i < k && steps[..k][i].Emit?
        ensures After(account, steps[..k][..i]).stack == []
      {
        assert steps[..k][..i] == steps[..i] && steps[i].Emit?;
      }
      RunnersOvertakeNobody(account, steps[..k]);
    }
  }

  /** One listener emits "b" when called with "a"; another subscribed after it. */
  function NestedSteps<R>(account: string): seq<Step<R>> {
    [Subscribe(account, 0), Progress, Subscribe(account, 1), Progress, Emit("a"), Progress, Emit("b"), Progress, Progress, Progress, Progress, Progress]
  }

  function FrameOf<R>(index: nat, remaining: seq<Listener>, calling: bool): Frame<R> {
    Publish(index, remaining, None, calling)
  }

  function Joined<R>(account: string, stack: seq<Frame<R>>, listeners: seq<Listener>, inbox: map<Listener, seq<nat>>): Run<R> {
    Start(account).(stack := stack, listeners := listeners, inbox := inbox)
  }

  function Emitting<R>(account: string, events: seq<Event<R>>, stack: seq<Frame<R>>, zero: seq<nat>, one: seq<nat>): Run<R> {
    Joined(account, stack, [0, 1], map[0 := zero, 1 := one]).(events := events, overtaken := if |events| == 2 then {1} else {})
  }

  function NestedStates<R>(account: string): seq<Run<R>> {
    var a, ab := [StepEvent("a")], [StepEvent("a"), StepEvent("b")];
    [Start(account),
     Joined(account, [Replay(0, 0, false)], [], map[0 := []]),
     Joined(account, [], [0], map[0 := []]),
     Joined(account, [Replay(1, 0, false)], [0], map[0 := [], 1 := []]),
     Emitting(account, [], [], [], []),
     Emitting(account, a, [FrameOf(0, [0, 1], false)], [], []),
     Emitting(account, a, [FrameOf(0, [1], true)], [0], []),
     Emitting(account, ab, [FrameOf(1, [0, 1], false), FrameOf(0, [1], true)], [0], []),
     Emitting(account, ab, [FrameOf(1, [1], true), FrameOf(0, [1], true)], [0, 1], []),
     Emitting(account, ab, [FrameOf(1, [], true), FrameOf(0, [1], true)], [0, 1], [1]),
     Emitting(account, ab, [FrameOf(0, [1], true)], [0, 1], [1]),
     Emitting(account, ab, [FrameOf(0, [], true)], [0, 1], [1, 0]),
     Emitting(account, ab, [], [0, 1], [1, 0])]
  }

  lemma Calls<R>(r: Run<R>, r': Run<R>, f: Frame<R>, rest: seq<Listener>, l: Listener, below: seq<Frame<R>>)
    requires Framed(r) && r.stack == [f] + below && f.Publish? && f.remaining == [l] + rest && l in r.inbox
    requires r' == r.(stack := [f.(remaining := rest, calling := true)] + below, inbox := r.inbox[l := r.inbox[l] + [f.index]])
    ensures Becomes(r, Progress, r')
  {
    assert r.stack[1..] == below && f.remaining[1..] == rest;
    assert r.stack[0] == f;
  }

  lemma Ends<R>(r: Run<R>, r': Run<R>, f: Frame<R>, below: seq<Frame<R>>)
    requires Framed(r) && r.stack == [f] + below && f.Publish? && f.remaining == [] && f.completion.None?
    requires r' == r.(stack := below)
    ensures Becomes(r, Progress, r')
  {
    assert r.stack[1..] == below && r.stack[0] == f;
    assert r.completions + [] == r.completions;
  }

  lemma Joins<R>(r: Run<R>, mid: Run<R>, r': Run<R>, l: Listener)
    requires r.stack == [] && r.events == [] && !r.done && !r.evicted && l !in r.inbox
    requires mid == r.(stack := [Replay(l, 0, false)], inbox := r.inbox[l := []])
    requires r' == mid.(stack := [], listeners := r.listeners + [l])
    ensures Becomes(r, Subscribe(r.account, l), mid) && Becomes(mid, Progress, r')
  {
    assert [Replay(l, 0, false)] + r.stack == mid.stack;
    assert mid.stack[1..] == [];
  }

  lemma Emits<R>(r: Run<R>, r': Run<R>, step: string)
    requires Framed(r) && UserCode(r) && !r.completed
    requires r' == PublishStep(r, StepEvent(step), None)
    ensures Becomes(r, Emit(step), r')
  {}

  lemma NestedJoins<R>(account: string, s: seq<Run<R>>)
    requires s == NestedStates(account)
    ensures Becomes(s[0], Subscribe(account, 0), s[1]) && Becomes(s[1], Progress, s[2])
    ensures Becomes(s[2], Subscribe(account, 1), s[3]) && Becomes(s[3], Progress, s[4])
  {
    var none: map<Listener, seq<nat>> := map[];
    var zero: map<Listener, seq<nat>> := map[0 := []];
    assert none[0 := []] == zero && zero[1 := []] == map[0 := [], 1 := []];
    assert [] + [0 as Listener] == [0] && [0 as Listener] + [1] == [0, 1];
    Joins(s[0], s[1], s[2], 0);
    Joins(s[2], s[3], s[4], 1);
  }

  lemma NestedEmitA<R>(account: string, s: seq<Run<R>>)
    requires s == NestedStates(account)
    ensures Becomes(s[4], Emit("a"), s[5])
  {
    Emits(s[4], s[5], "a");
  }

  lemma NestedEmitB<R>(account: string, s: seq<Run<R>>)
    requires s == NestedStates(account)
    ensures Becomes(s[6], Emit("b"), s[7])
  {
    var f := FrameOf<R>(0, [1], true);
    Overtakes(s[6], f);
    assert [FrameOf<R>(1, [0, 1], false)] + [f] == s[7].stack;
    assert [StepEvent("a")] + [StepEvent("b")] == s[7].events;
    Emits(s[6], s[7], "b");
  }

  /** An event emitted now overtakes exactly the listener still to be called. */
  lemma Overtakes<R>(r: Run<R>, f: Frame<R>)
    requires r.stack == [f] && f.Publish? && f.remaining == [1] && r.listeners == [0, 1]
    ensures (set l | l in r.listeners && Owed(r.stack, l) != []) == {1}
  {
    assert [f] + [] == r.stack;
    OwedPush(f, [], 0);
    OwedPush(f, [], 1);
  }

  lemma TwoFramed<R>(account: string, events: seq<Event<R>>, f: Frame<R>, g: Frame<R>, zero: seq<nat>, one: seq<nat>)
    requires f.Publish? && g.Publish? && f.remaining == [0, 1] && g.remaining == [1]
    ensures Framed(Emitting(account, events, [f] + [g], zero, one))
  {}

  /** The loop over both calls the first. */
  lemma CallsFirst<R>(account: string, events: seq<Event<R>>, f: Frame<R>, below: seq<Frame<R>>, zero: seq<nat>, one: seq<nat>)
    requires f.Publish? && f.remaining == [0, 1] && Framed(Emitting(account, events, [f] + below, zero, one))
    ensures Becomes(Emitting(account, events, [f] + below, zero, one), Progress,
                    Emitting(account, events, [f.(remaining := [1], calling := true)] + below, zero + [f.index], one))
  {
    var r := Emitting(account, events, [f] + below, zero, one);
    assert [0 as Listener, 1] == [0] + [1];
    assert r.inbox[0 := zero + [f.index]] == map[0 := zero + [f.index], 1 := one];
    Calls(r, Emitting(account, events, [f.(remaining := [1], calling := true)] + below, zero + [f.index], one), f, [1], 0, below);
  }

  /** Then the second. */
  lemma CallsSecond<R>(account: string, events: seq<Event<R>>, f: Frame<R>, below: seq<Frame<R>>, zero: seq<nat>, one: seq<nat>)
    requires f.Publish? && f.remaining == [1] && Framed(Emitting(account, events, [f] + below, zero, one))
    ensures Becomes(Emitting(account, events, [f] + below, zero, one), Progress,
                    Emitting(account, events, [f.(remaining := [], calling := true)] + below, zero, one + [f.index]))
  {
    var r := Emitting(account, events, [f] + below, zero, one);
    assert [1 as Listener] == [1] + [];
    assert r.inbox[1 := one + [f.index]] == map[0 := zero, 1 := one + [f.index]];
    Calls(r, Emitting(account, events, [f.(remaining := [], calling := true)] + below, zero, one + [f.index]), f, [], 1, below);
  }

  lemma NestedCallsOuter<R>(account: string, s: seq<Run<R>>)
    requires s == NestedStates(account)
    ensures Becomes(s[5], Progress, s[6])
  {
    var outer := FrameOf<R>(0, [0, 1], false);
    assert [outer] + [] == s[5].stack && [FrameOf<R>(0, [1], true)] + [] == s[6].stack;
    assert [] + [0 as nat] == [0];
    CallsFirst(account, s[5].events, outer, [], [], []);
  }

  lemma NestedCallsInner<R>(account: string, s: seq<Run<R>>)
    requires s == NestedStates(account)
    ensures Becomes(s[7], Progress, s[8])
  {
    var inner := FrameOf<R>(1, [0, 1], false);
    var below := [FrameOf<R>(0, [1], true)];
    assert [0 as nat] + [1] == [0, 1];
    assert [inner] + below == s[7].stack && [inner.(remaining := [1], calling := true)] + below == s[8].stack;
    TwoFramed(account, s[7].events, inner, below[0], [0], []);
    CallsFirst(account, s[7].events, inner, below, [0], []);
  }

  lemma NestedLastCallsInner<R>(account: string, s: seq<Run<R>>)
    requires s == NestedStates(account)
    ensures Becomes(s[8], Progress, s[9])
  {
    var inner, outer := FrameOf<R>(1, [1], true), FrameOf<R>(0, [1], true);
    assert [] + [1 as nat] == [1];
    assert [inner] + [outer] == s[8].stack && [FrameOf<R>(1, [], true)] + [outer] == s[9].stack;
    CallsSecond(account, s[8].events, inner, [outer], [0, 1], []);
  }

  lemma NestedLastCallsOuter<R>(account: string, s: seq<Run<R>>)
    requires s == NestedStates(account)
    ensures Becomes(s[10], Progress, s[11])
  {
    var outer := FrameOf<R>(0, [1], true);
    assert [1 as nat] + [0] == [1, 0];
    assert [outer] + [] == s[10].stack && [FrameOf<R>(0, [], true)] + [] == s[11].stack;
    CallsSecond(account, s[10].events, outer, [], [0, 1], [1]);
  }

  lemma NestedEnds<R>(account: string, s: seq<Run<R>>)
    requires s == NestedStates(account)
    ensures Becomes(s[9], Progress, s[10]) && Becomes(s[11], Progress, s[12])
  {
    assert s[9].stack == [FrameOf(1, [], true)] + [FrameOf(0, [1], true)];
    Ends(s[9], s[10], FrameOf(1, [], true), [FrameOf(0, [1], true)]);
    assert s[11].stack == [FrameOf(0, [], true)] + [];
    Ends(s[11], s[12], FrameOf(0, [], true), []);
  }

  /** A listener that emits when called: the listener after it receives the second event before the first. */
  lemma NestedEmitOvertakes<R>(account: string)
    ensures var r := After<R>(account, NestedSteps(account)); r.stack == [] && |r.events| == 2 && 1 in r.inbox && r.inbox[1] == [1, 0] && 1 !in r.left
  {
    var steps, s := NestedSteps<R>(account), NestedStates<R>(account);
    NestedJoins(account, s);
    NestedEmitA(account, s);
    NestedEmitB(account, s);
    NestedCallsOuter(account, s);
    NestedCallsInner(account, s);
    NestedLastCallsInner(account, s);
    NestedLastCallsOuter(account, s);
    NestedEnds(account, s);
    Trace(account, steps, s);
  }
}

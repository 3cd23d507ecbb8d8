/** scripts/onboard/portal-api.ts: `FixedWindowLimiter`. */
module RateLimiter {
  import opened Wrappers

  datatype Window = Window(count: nat, resetAt: int)

  datatype Limits = Limits(limit: int, windowMs: int)

  type Hits = map<string, Window>

  const PRUNE_ABOVE: nat := 10_000

  function Pruned(hits: Hits, now: int): Hits {
    map k | k in hits && hits[k].resetAt > now :: hits[k]
  }

  /** `exceeded`, with or without its pruning. */
  function Hit(l: Limits, hits: Hits, key: string, now: int, prune: bool): (bool, Hits) {
    var kept := if prune && |hits| > PRUNE_ABOVE then Pruned(hits, now) else hits;
    if key !in kept || kept[key].resetAt <= now then (false, kept[key := Window(1, now + l.windowMs)])
    else
      var count := kept[key].count + 1;
      (count > l.limit, kept[key := Window(count, kept[key].resetAt)])
  }

  class FixedWindowLimiter {
    const limits: Limits
    var hits: Hits

    constructor (l: Limits)
      ensures limits == l && hits == map[]
    {
      limits, hits := l, map[];
    }

    method Exceeded(key: string, now: int) returns (over: bool)
      modifies this
      ensures (over, hits) == Hit(limits, old(hits), key, now, true)
    {
      if |hits| > PRUNE_ABOVE {
        Prune(now);
      }
      if key !in hits || hits[key].resetAt <= now {
        hits := hits[key := Window(1, now + limits.windowMs)];
        return false;
      }
      var cur := hits[key];
      hits := hits[key := Window(cur.count + 1, cur.resetAt)];
      return cur.count + 1 > limits.limit;
    }

    /** Deletes expired windows one by one. */
    method Prune(now: int)
      modifies this
      ensures hits == Pruned(old(hits), now)
    {
      var todo := hits.Keys;
      while todo != {}
        invariant todo <= old(hits).Keys
        invariant forall k :: k in hits <==> k in old(hits) && (k in todo || old(hits)[k].resetAt > now)
        invariant forall k :: k in hits ==> hits[k] == old(hits)[k]
        decreases |todo|
      {
        var k :| k in todo;
        todo := todo - {k};
        if hits[k].resetAt <= now {
          hits := hits - {k};
        }
      }
    }
  }

  // ---- pruning is invisible ----

  datatype Call = Call(key: string, now: int)

  ghost predicate Monotone(calls: seq<Call>) {
    forall i, j :: 0 <= i < j < |calls| ==> calls[i].now <= calls[j].now
  }

  function After(l: Limits, calls: seq<Call>, prune: bool): Hits {
    if calls == [] then map[]
    else
      var c := calls[|calls| - 1];
      Hit(l, After(l, calls[..|calls| - 1], prune), c.key, c.now, prune).1
  }

  /** The answer to the last call. */
  function Answer(l: Limits, calls: seq<Call>, prune: bool): bool
    requires calls != []
  {
    var c := calls[|calls| - 1];
    Hit(l, After(l, calls[..|calls| - 1], prune), c.key, c.now, prune).0
  }

  /** The pruned table lacks only windows that are over. */
  ghost predicate Agree(pruned: Hits, full: Hits, now: int) {
    && (forall k :: k in pruned ==> k in full && full[k] == pruned[k])
    && (forall k :: k in full && k !in pruned ==> full[k].resetAt <= now)
  }

  lemma HitsAgree(l: Limits, pruned: Hits, full: Hits, before: int, key: string, now: int)
    requires Agree(pruned, full, before) && before <= now
    ensures Hit(l, pruned, key, now, true).0 == Hit(l, full, key, now, false).0
    ensures Agree(Hit(l, pruned, key, now, true).1, Hit(l, full, key, now, false).1, now)
  {}

  /** With a clock that does not run backwards, no answer ever depends on pruning. */
  lemma {:induction false} PruningIsInvisible(l: Limits, calls: seq<Call>)
    requires Monotone(calls) && calls != []
    ensures Answer(l, calls, true) == Answer(l, calls, false)
    ensures Agree(After(l, calls, true), After(l, calls, false), calls[|calls| - 1].now)
  {
    var n := |calls| - 1;
    var c := calls[n];
    if n > 0 {
      PruningIsInvisible(l, calls[..n]);
      HitsAgree(l, After(l, calls[..n], true), After(l, calls[..n], false), calls[n - 1].now, c.key, c.now);
    } else {
      HitsAgree(l, map[], map[], c.now, c.key, c.now);
    }
  }

  // ---- how many are admitted ----

  /** The times at which calls with this key were let through. */
  function Admitted(l: Limits, calls: seq<Call>, key: string, prune: bool): seq<int> {
    if calls == [] then []
    else
      var n := |calls| - 1;
      Admitted(l, calls[..n], key, prune) + if calls[n].key == key && !Answer(l, calls, prune) then [calls[n].now] else []
  }

  /** How many of the times lie in the half-open interval. */
  function Count(times: seq<int>, lo: int, hi: int): nat {
    if times == [] then 0
    else
      var t := times[|times| - 1];
      Count(times[..|times| - 1], lo, hi) + if lo <= t < hi then 1 else 0
  }

  lemma CountPush(times: seq<int>, t: int, lo: int, hi: int)
    ensures Count(times + [t], lo, hi) == Count(times, lo, hi) + if lo <= t < hi then 1 else 0
  {
    assert (times + [t])[..|times|] == times;
  }

  lemma {:induction false} CountSplit(times: seq<int>, lo: int, mid: int, hi: int)
    requires lo <= mid
    ensures Count(times, lo, hi) <= Count(times, lo, mid) + Count(times, mid, hi)
  {
    if times != [] {
      CountSplit(times[..|times| - 1], lo, mid, hi);
    }
  }

  lemma {:induction false} CountWithin(times: seq<int>, lo: int, hi: int, lo': int, hi': int)
    requires lo' <= lo && hi <= hi'
    ensures Count(times, lo, hi) <= Count(times, lo', hi')
  {
    if times != [] {
      CountWithin(times[..|times| - 1], lo, hi, lo', hi');
    }
  }

  lemma {:induction false} CountNone(times: seq<int>, lo: int, hi: int)
    requires Before(times, lo)
    ensures Count(times, lo, hi) == 0
  {
    if times != [] {
      CountNone(times[..|times| - 1], lo, hi);
    }
  }

  /** Nothing is counted from `mid` on. */
  lemma {:induction false} CountBefore(times: seq<int>, lo: int, mid: int, hi: int)
    requires lo <= mid && Before(times, mid)
    ensures Count(times, lo, hi) <= Count(times, lo, mid)
  {
    CountSplit(times, lo, mid, hi);
    CountNone(times, mid, hi);
  }

  ghost predicate Before(times: seq<int>, t: int) {
    forall i :: 0 <= i < |times| ==> times[i] < t
  }

  function Bound(l: Limits): nat {
    if l.limit < 1 then 1 else l.limit
  }

  function Capped(l: Limits, count: nat): nat {
    if count <= Bound(l) then count else Bound(l)
  }

  /** An interval one window long that starts at `t` holds less than twice the bound. */
  ghost predicate SpreadOk(l: Limits, times: seq<int>, t: int) {
    Count(times, t, t + l.windowMs) < 2 * Bound(l)
  }

  /**
   * The current window admitted its count, up to the bound, and its first call is one of them; what the
   * interval before it reaches back to misses the first call of the window before.
   */
  ghost predicate WindowInv(l: Limits, times: seq<int>, w: Window) {
    var start := w.resetAt - l.windowMs;
    && w.count >= 1
    && Before(times, w.resetAt)
    && Count(times, start, w.resetAt) == Capped(l, w.count)
    && (forall t :: t > start ==> Count(times, t, w.resetAt) < Capped(l, w.count))
    && (forall t :: t > start - l.windowMs ==> Count(times, t, start) < Bound(l))
    && (forall t :: SpreadOk(l, times, t))
  }

  /** A window opens with its first call, which is let through. */
  lemma OpenWindow(l: Limits, times: seq<int>, now: int)
    requires l.windowMs > 0 && Before(times, now)
    requires forall t :: t > now - l.windowMs ==> Count(times, t, now) < Bound(l)
    requires forall t :: SpreadOk(l, times, t)
    ensures WindowInv(l, times + [now], Window(1, now + l.windowMs))
  {
    var times', end := times + [now], now + l.windowMs;
    CountPush(times, now, now, end);
    CountNone(times, now, end);
    forall t | t > now
      ensures Count(times', t, end) == 0
    {
      CountNone(times', t, end);
    }
    forall t | t > now - l.windowMs
      ensures Count(times', t, now) < Bound(l)
    {
      CountPush(times, now, t, now);
    }
    forall t
      ensures SpreadOk(l, times', t)
    {
      OpenSpread(l, times, now, t);
    }
  }

  lemma OpenSpread(l: Limits, times: seq<int>, now: int, t: int)
    requires Before(times, now) && SpreadOk(l, times, t)
    requires t > now - l.windowMs ==> Count(times, t, now) < Bound(l)
    ensures SpreadOk(l, times + [now], t)
  {
    var end, times' := t + l.windowMs, times + [now];
    CountPush(times, now, t, end);
    if t <= now < end {
      CountBefore(times, t, now, end);
      assert Count(times, t, end) < Bound(l);
      assert Count(times', t, end) <= Bound(l);
    } else {
      assert Count(times', t, end) == Count(times, t, end);
    }
  }

  lemma NextWindow(l: Limits, times: seq<int>, w: Window, now: int)
    requires l.windowMs > 0 && WindowInv(l, times, w) && w.resetAt <= now
    ensures WindowInv(l, times + [now], Window(1, now + l.windowMs))
  {
    forall t | t > now - l.windowMs
      ensures Count(times, t, now) < Bound(l)
    {
      if t <= w.resetAt {
        CountSplit(times, t, w.resetAt, now);
        CountNone(times, w.resetAt, now);
      } else {
        CountNone(times, t, now);
      }
    }
    OpenWindow(l, times, now);
  }

  lemma SameWindow(l: Limits, times: seq<int>, w: Window, now: int)
    requires l.windowMs > 0 && WindowInv(l, times, w) && w.resetAt - l.windowMs <= now < w.resetAt && w.count + 1 <= l.limit
    ensures WindowInv(l, times + [now], Window(w.count + 1, w.resetAt))
  {
    var start, times' := w.resetAt - l.windowMs, times + [now];
    CountPush(times, now, start, w.resetAt);
    forall t | t > start
      ensures Count(times', t, w.resetAt) < Capped(l, w.count + 1)
    {
      CountPush(times, now, t, w.resetAt);
    }
    forall t | t > start - l.windowMs
      ensures Count(times', t, start) < Bound(l)
    {
      CountPush(times, now, t, start);
    }
    forall t
      ensures SpreadOk(l, times', t)
    {
      SameSpread(l, times, w, now, t);
    }
  }

  /** An interval that reaches into the current window holds what the window holds and less than a bound more. */
  lemma SameSpread(l: Limits, times: seq<int>, w: Window, now: int, t: int)
    requires l.windowMs > 0 && WindowInv(l, times, w) && w.resetAt - l.windowMs <= now < w.resetAt && w.count + 1 <= l.limit
    ensures SpreadOk(l, times + [now], t)
  {
    assert SpreadOk(l, times, t);
    var start, end := w.resetAt - l.windowMs, t + l.windowMs;
    CountPush(times, now, t, end);
    if t <= now < end {
      if t >= start {
        CountSplit(times, t, w.resetAt, end);
        CountNone(times, w.resetAt, end);
        CountWithin(times, t, w.resetAt, start, w.resetAt);
      } else {
        CountSplit(times, t, start, end);
        CountWithin(times, start, end, start, w.resetAt);
      }
    }
  }

  /** A call over the limit is only counted. */
  lemma OverLimit(l: Limits, times: seq<int>, w: Window)
    requires WindowInv(l, times, w) && w.count + 1 > l.limit
    ensures WindowInv(l, times, Window(w.count + 1, w.resetAt))
  {}

  /** In step with the table: no window, nothing admitted. */
  ghost predicate KeyInv(l: Limits, hits: Hits, times: seq<int>, key: string, last: int) {
    if key in hits then WindowInv(l, times, hits[key]) && hits[key].resetAt - l.windowMs <= last
    else times == []
  }

  lemma KeyStep(l: Limits, hits: Hits, times: seq<int>, key: string, now: int)
    requires l.windowMs > 0 && KeyInv(l, hits, times, key, now)
    ensures var (over, hits') := Hit(l, hits, key, now, false); KeyInv(l, hits', times + if over then [] else [now], key, now)
  {
    if key !in hits {
      FirstWindow(l, now);
      assert times + [now] == [now];
    } else if hits[key].resetAt <= now {
      NextWindow(l, times, hits[key], now);
    } else if hits[key].count + 1 <= l.limit {
      SameWindow(l, times, hits[key], now);
    } else {
      OverLimit(l, times, hits[key]);
      assert times + [] == times;
    }
  }

  lemma FirstWindow(l: Limits, now: int)
    requires l.windowMs > 0
    ensures WindowInv(l, [now], Window(1, now + l.windowMs))
  {
    assert forall t :: SpreadOk(l, [], t);
    OpenWindow(l, [], now);
    assert [] + [now] == [now];
  }

  lemma {:induction false} KeyInvHolds(l: Limits, calls: seq<Call>, key: string, last: int)
    requires l.windowMs > 0 && Monotone(calls) && forall i :: 0 <= i < |calls| ==> calls[i].now <= last
    ensures KeyInv(l, After(l, calls, false), Admitted(l, calls, key, false), key, last)
  {
    if calls != [] {
      var n := |calls| - 1;
      var c := calls[n];
      KeyInvHolds(l, calls[..n], key, c.now);
      var times := Admitted(l, calls[..n], key, false);
      if c.key == key {
        KeyStep(l, After(l, calls[..n], false), times, key, c.now);
      } else {
        assert times + [] == times;
      }
    }
  }

  lemma {:induction false} SameAdmissions(l: Limits, calls: seq<Call>, key: string)
    requires Monotone(calls)
    ensures Admitted(l, calls, key, true) == Admitted(l, calls, key, false)
  {
    if calls != [] {
      SameAdmissions(l, calls[..|calls| - 1], key);
      PruningIsInvisible(l, calls);
    }
  }

  /**
   * Each key gets at most `limit` calls through per window, and fewer than twice that in any half-open
   * interval one window long; a limit below one still lets one call through per window.
   */
  lemma FewerThanTwice(l: Limits, calls: seq<Call>, key: string, t: int)
    requires l.windowMs > 0 && Monotone(calls)
    ensures Count(Admitted(l, calls, key, true), t, t + l.windowMs) < 2 * Bound(l)
    ensures key in After(l, calls, true) ==> InWindow(l, calls, key) <= Bound(l)
  {
    if calls != [] {
      KeyInvHolds(l, calls, key, calls[|calls| - 1].now);
      SameAdmissions(l, calls, key);
      PruningIsInvisible(l, calls);
      var hits, times := After(l, calls, false), Admitted(l, calls, key, false);
      KeyBound(l, hits, times, key, calls[|calls| - 1].now, t);
    }
  }

  lemma KeyBound(l: Limits, hits: Hits, times: seq<int>, key: string, last: int, t: int)
    requires KeyInv(l, hits, times, key, last)
    ensures Count(times, t, t + l.windowMs) < 2 * Bound(l)
    ensures key in hits ==> Count(times, hits[key].resetAt - l.windowMs, hits[key].resetAt) <= Bound(l)
  {
    if key in hits {
      assert SpreadOk(l, times, t);
    }
  }

  /** The admissions in the window a key is in. */
  function InWindow(l: Limits, calls: seq<Call>, key: string): nat
    requires key in After(l, calls, true)
  {
    var w := After(l, calls, true)[key];
    Count(Admitted(l, calls, key, true), w.resetAt - l.windowMs, w.resetAt)
  }

  lemma Push(l: Limits, calls: seq<Call>, c: Call)
    ensures After(l, calls + [c], false) == Hit(l, After(l, calls, false), c.key, c.now, false).1
    ensures Admitted(l, calls + [c], c.key, false)
         == Admitted(l, calls, c.key, false) + if Hit(l, After(l, calls, false), c.key, c.now, false).0 then [] else [c.now]
  {
    assert (calls + [c])[..|calls|] == calls;
  }

  /** `n` more calls with the same key at the same time. */
  function Repeat(calls: seq<Call>, c: Call, n: nat): (r: seq<Call>)
    ensures |r| == |calls| + n
  {
    if n == 0 then calls else Repeat(calls, c, n - 1) + [c]
  }

  function Times(t: int, n: nat): (ts: seq<int>) { seq(n, _ => t) }

  /** A table with one window. */
  function Table(key: string, count: nat, resetAt: int): Hits {
    map[key := Window(count, resetAt)]
  }

  lemma HitInWindow(l: Limits, key: string, count: nat, resetAt: int, now: int)
    requires now < resetAt && count + 1 <= l.limit
    ensures Hit(l, Table(key, count, resetAt), key, now, false) == (false, Table(key, count + 1, resetAt))
  {
    assert Table(key, count, resetAt)[key := Window(count + 1, resetAt)] == Table(key, count + 1, resetAt);
  }

  lemma HitOpens(l: Limits, key: string, count: nat, resetAt: int, now: int)
    requires resetAt <= now
    ensures Hit(l, Table(key, count, resetAt), key, now, false) == (false, Table(key, 1, now + l.windowMs))
  {
    assert Table(key, count, resetAt)[key := Window(1, now + l.windowMs)] == Table(key, 1, now + l.windowMs);
  }

  /** The table and the admissions after some calls. */
  ghost predicate Stands(l: Limits, calls: seq<Call>, key: string, hits: Hits, times: seq<int>) {
    After(l, calls, false) == hits && Admitted(l, calls, key, false) == times
  }

  /** One call more, where the table is known. */
  lemma Admit(l: Limits, calls: seq<Call>, c: Call, hits: Hits, times: seq<int>, hits': Hits)
    requires Stands(l, calls, c.key, hits, times) && Hit(l, hits, c.key, c.now, false) == (false, hits')
    ensures Stands(l, calls + [c], c.key, hits', times + [c.now])
  {
    Push(l, calls, c);
  }

  lemma AdmitOne(l: Limits, prev: seq<Call>, calls: seq<Call>, c: Call, count: nat, resetAt: int, before: seq<int>, times: seq<int>)
    requires Stands(l, prev, c.key, Table(c.key, count, resetAt), before) && c.now < resetAt && count + 1 <= l.limit
    requires calls == prev + [c] && times == before + [c.now]
    ensures Stands(l, calls, c.key, Table(c.key, count + 1, resetAt), times)
  {
    HitInWindow(l, c.key, count, resetAt, c.now);
    Admit(l, prev, c, Table(c.key, count, resetAt), before, Table(c.key, count + 1, resetAt));
  }

  /** Within a window that has room, calls are admitted one after the other. */
  lemma {:induction false} RepeatAdmitted(l: Limits, calls: seq<Call>, c: Call, n: nat, count: nat, resetAt: int, times: seq<int>)
    requires Stands(l, calls, c.key, Table(c.key, count, resetAt), times) && c.now < resetAt && count + n <= l.limit
    ensures Stands(l, Repeat(calls, c, n), c.key, Table(c.key, count + n, resetAt), times + Times(c.now, n))
  {
    if n == 0 {
      assert times + Times(c.now, 0) == times;
    } else {
      RepeatAdmitted(l, calls, c, n - 1, count, resetAt, times);
      MoreTimes(times, c.now, n);
      AdmitOne(l, Repeat(calls, c, n - 1), Repeat(calls, c, n), c, count + (n - 1), resetAt, times + Times(c.now, n - 1), times + Times(c.now, n));
    }
  }

  lemma MoreTimes(times: seq<int>, t: int, n: nat)
    requires n > 0
    ensures times + Times(t, n) == times + Times(t, n - 1) + [t]
  {
    assert Times(t, n) == Times(t, n - 1) + [t];
  }

  lemma {:induction false} RepeatMonotone(calls: seq<Call>, c: Call, n: nat)
    requires Monotone(calls) && forall i :: 0 <= i < |calls| ==> calls[i].now <= c.now
    ensures Monotone(Repeat(calls, c, n)) && forall i :: 0 <= i < |Repeat(calls, c, n)| ==> Repeat(calls, c, n)[i].now <= c.now
  {
    if n > 0 {
      RepeatMonotone(calls, c, n - 1);
    }
  }

  lemma {:induction false} CountTimes(times: seq<int>, t: int, n: nat, lo: int, hi: int)
    ensures Count(times + Times(t, n), lo, hi) == Count(times, lo, hi) + if lo <= t < hi then n else 0
  {
    if n == 0 {
      assert times + Times(t, 0) == times;
    } else {
      CountTimes(times, t, n - 1, lo, hi);
      CountPush(times + Times(t, n - 1), t, lo, hi);
      assert times + Times(t, n) == (times + Times(t, n - 1)) + [t];
    }
  }

  /** One call when a window opens, the rest of its limit at its last moment, and a full window right after. */
  function Burst(l: Limits): seq<Call>
    requires l.limit >= 1
  {
    var first := [] + [Call("k", 0)];
    var full := Repeat(first, Call("k", l.windowMs - 1), l.limit - 1);
    Repeat(full + [Call("k", l.windowMs)], Call("k", l.windowMs), l.limit - 1)
  }

  lemma BurstAdmitted(l: Limits, first: seq<Call>, full: seq<Call>, n: nat)
    requires l.limit == n + 1 && l.windowMs >= 2 && first == [] + [Call("k", 0)] && full == Repeat(first, Call("k", l.windowMs - 1), n)
    ensures Stands(l, Repeat(full + [Call("k", l.windowMs)], Call("k", l.windowMs), n), "k",
                   Table("k", n + 1, l.windowMs + l.windowMs), BurstTimes(l.windowMs, n))
  {
    var w := l.windowMs;
    FirstAdmitted(l, first);
    RepeatAdmitted(l, first, Call("k", w - 1), n, 1, w, [0]);
    HitOpens(l, "k", 1 + n, w, w);
    Admit(l, full, Call("k", w), Table("k", 1 + n, w), [0] + Times(w - 1, n), Table("k", 1, w + w));
    RepeatAdmitted(l, full + [Call("k", w)], Call("k", w), n, 1, w + w, [0] + Times(w - 1, n) + [w]);
  }

  lemma BurstMonotone(w: int, first: seq<Call>, full: seq<Call>, n: nat)
    requires w >= 2 && first == [] + [Call("k", 0)] && full == Repeat(first, Call("k", w - 1), n)
    ensures Monotone(Repeat(full + [Call("k", w)], Call("k", w), n))
  {
    RepeatMonotone(first, Call("k", w - 1), n);
    RepeatMonotone(full + [Call("k", w)], Call("k", w), n);
  }

  /** The bound is tight: for every limit some calls get one short of twice the limit through in one window's length. */
  lemma OneShortOfTwice(l: Limits)
    requires l.limit >= 1 && l.windowMs >= 2
    ensures Monotone(Burst(l))
    ensures Count(Admitted(l, Burst(l), "k", true), l.windowMs - 1, l.windowMs - 1 + l.windowMs) == 2 * l.limit - 1
  {
    BurstFacts(l, Burst(l));
    SameAdmissions(l, Burst(l), "k");
    CountOf(Admitted(l, Burst(l), "k", true), l.windowMs, l.limit - 1);
  }

  lemma BurstFacts(l: Limits, calls: seq<Call>)
    requires l.limit >= 1 && l.windowMs >= 2 && calls == Burst(l)
    ensures Monotone(calls) && Admitted(l, calls, "k", false) == BurstTimes(l.windowMs, l.limit - 1)
  {
    var n := l.limit - 1;
    var first := [] + [Call("k", 0)];
    var full := Repeat(first, Call("k", l.windowMs - 1), n);
    BurstAdmitted(l, first, full, n);
    BurstMonotone(l.windowMs, first, full, n);
    assert calls == Repeat(full + [Call("k", l.windowMs)], Call("k", l.windowMs), n);
  }

  function BurstTimes(w: int, n: nat): seq<int> { [0] + Times(w - 1, n) + [w] + Times(w, n) }

  lemma CountOf(times: seq<int>, w: int, n: nat)
    requires w >= 2 && times == BurstTimes(w, n)
    ensures Count(times, w - 1, w - 1 + w) == 2 * n + 1
  {
    CountBurst(w, n);
  }

  lemma FirstAdmitted(l: Limits, first: seq<Call>)
    requires first == [] + [Call("k", 0)]
    ensures Stands(l, first, "k", Table("k", 1, l.windowMs), [0])
  {
    Push(l, [], Call("k", 0));
    assert After(l, [], false) == map[] && Admitted(l, [], "k", false) == [];
    var none: Hits := map[];
    assert none["k" := Window(1, l.windowMs)] == Table("k", 1, l.windowMs);
  }

  lemma CountBurst(w: int, n: nat)
    requires w >= 2
    ensures Count([0] + Times(w - 1, n) + [w] + Times(w, n), w - 1, w - 1 + w) == 2 * n + 1
  {
    CountTimes([0], w - 1, n, w - 1, w - 1 + w);
    CountPush([], 0, w - 1, w - 1 + w);
    CountPush([0] + Times(w - 1, n), w, w - 1, w - 1 + w);
    CountTimes([0] + Times(w - 1, n) + [w], w, n, w - 1, w - 1 + w);
  }

  /** The stated limit bounds every window of every sequence of calls if and only if it is at least one. */
  lemma LimitHoldsIff(l: Limits)
    requires l.windowMs > 0
    ensures (forall calls, key :: Monotone(calls) && key in After(l, calls, true) ==> InWindow(l, calls, key) <= l.limit) <==> l.limit >= 1
  {
    if l.limit >= 1 {
      forall calls, key | Monotone(calls) && key in After(l, calls, true)
        ensures InWindow(l, calls, key) <= l.limit
      {
        FewerThanTwice(l, calls, key, 0);
      }
    } else {
      FirstIsAdmitted(l);
    }
  }

  lemma FirstIsAdmitted(l: Limits)
    requires l.windowMs > 0
    ensures var calls := [] + [Call("k", 0)]; Monotone(calls) && "k" in After(l, calls, true) && InWindow(l, calls, "k") == 1
  {
    var calls := [] + [Call("k", 0)];
    FirstAdmitted(l, calls);
    SameAdmissions(l, calls, "k");
    assert calls[..0] == [];
    assert After(l, calls, true)["k"] == Window(1, l.windowMs);
    CountPush([], 0, 0, l.windowMs);
    assert [] + [0] == [0];
  }
}

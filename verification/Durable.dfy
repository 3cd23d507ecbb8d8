/** scripts/onboard/durable.ts: `JsonFileRevocationIndexAllocator` and `JsonFileStatusListStore`. */
module Durable {
  import opened Wrappers
  import StatusList

  const TWO_53: nat := 0x20_0000_0000_0000
  const TWO_54: nat := 0x40_0000_0000_0000

  /**
   * `n + 1` in double precision, rounded to even, for every integer a double can hold: exact below 2^53; from there
   * to 2^54 the doubles are the even numbers and the sum is a tie; beyond, one is less than half a step.
   */
  function PlusOne(n: nat): (m: nat)
    ensures m >= n
  {
    if n < TWO_53 then n + 1
    else if n < TWO_54 && n % 4 == 2 then n + 2
    else n
  }

  /** Adding one moves on from here. */
  predicate Moves(n: nat) {
    n < TWO_53 || (n < TWO_54 && n % 4 == 2)
  }

  lemma MovesIff(n: nat)
    ensures PlusOne(n) > n <==> Moves(n)
  {}

  // ---- the allocator over crashes ----

  /** `file` is what the disk holds. `handed` is history: the indexes callers received, in order. */
  datatype State = State(next: nat, file: Option<nat>, handed: seq<nat>)

  /**
   * Calls are chained, so each allocation is one step: its write happens whole or not at all, and the process
   * may die on either side of it. A restart reads the file.
   */
  datatype Step = Allocate | AllocateWriteFails | DieBeforeWrite | DieAfterWrite | Restart

  function Loaded(file: Option<nat>): nat {
    if file.Some? then file.value else 0
  }

  function Boot(file: Option<nat>): State {
    State(Loaded(file), file, [])
  }

  function Next(s: State, step: Step): State {
    match step
    case Allocate => State(PlusOne(s.next), Some(PlusOne(s.next)), s.handed + [s.next])
    case AllocateWriteFails => s.(next := PlusOne(s.next))
    case DieBeforeWrite => s.(next := Loaded(s.file))
    case DieAfterWrite => s.(next := PlusOne(s.next), file := Some(PlusOne(s.next)))
    case Restart => s.(next := Loaded(s.file))
  }

  function After(file: Option<nat>, steps: seq<Step>): State {
    if steps == [] then Boot(file) else Next(After(file, steps[..|steps| - 1]), steps[|steps| - 1])
  }

  class JsonFileRevocationIndexAllocator {
    var next: nat
    var file: Option<nat>

    constructor (f: Option<nat>)
      ensures file == f && next == Loaded(f)
    {
      file := f;
      next := if f.None? then 0 else f.value;
    }

    /** `writeOk` is whether the atomic write succeeds. */
    method Allocate(writeOk: bool) returns (index: Option<nat>)
      modifies this
      ensures forall handed :: (State(next, file, handed + if index.Some? then [index.value] else [])
                                == Next(State(old(next), old(file), handed), if writeOk then Step.Allocate else AllocateWriteFails))
      ensures index.Some? <==> writeOk
    {
      var i := next;
      next := PlusOne(i);
      if !writeOk {
        assert forall handed: seq<nat> :: handed + [] == handed;
        return None;
      }
      file := Some(next);
      return Some(i);
    }
  }

  /** Memory is never behind the file, and every index handed out that the counter moves on from is below what the file holds. */
  ghost predicate Inv(s: State) {
    && Loaded(s.file) <= s.next
    && (forall i :: 0 <= i < |s.handed| && Moves(s.handed[i]) ==> s.handed[i] < Loaded(s.file))
    && (forall i, j :: 0 <= i < j < |s.handed| && s.handed[i] == s.handed[j] ==> !Moves(s.handed[i]))
  }

  lemma {:induction false} InvHolds(file: Option<nat>, steps: seq<Step>)
    ensures Inv(After(file, steps))
  {
    if steps != [] {
      InvHolds(file, steps[..|steps| - 1]);
      MovesIff(After(file, steps[..|steps| - 1]).next);
    }
  }

  /** Whatever writes fail and whenever the process dies, no index the counter moves on from is handed out twice: none below 2^53. */
  lemma NoIndexTwice(file: Option<nat>, steps: seq<Step>, i: nat, j: nat)
    requires i < j < |After(file, steps).handed| && Moves(After(file, steps).handed[i])
    ensures After(file, steps).handed[i] != After(file, steps).handed[j]
  {
    InvHolds(file, steps);
  }

  /** From any counter file two allocations in a row differ if and only if the counter moves on from what the file holds. */
  lemma DistinctIff(n: nat)
    ensures var handed := After(Some(n), [Allocate, Allocate]).handed;
      |handed| == 2 && (handed[0] != handed[1] <==> n < TWO_53 || (n < TWO_54 && n % 4 == 2))
  {
    var steps := [Allocate, Allocate];
    assert steps[..1] == [Allocate] && steps[..1][..0] == [];
    assert After(Some(n), steps[..1]) == State(PlusOne(n), Some(PlusOne(n)), [n]);
  }

  /** Without failures the indexes handed out are consecutive, from what the file says on. */
  lemma {:induction false} HandedInOrder(file: Option<nat>, n: nat)
    requires (if file.Some? then file.value else 0) + n <= TWO_53
    ensures var first := if file.Some? then file.value else 0;
      var s := After(file, seq(n, _ => Allocate));
      && |s.handed| == n && s.next == first + n && (n > 0 ==> s.file == Some(first + n))
      && forall i :: 0 <= i < n ==> s.handed[i] == first + i
  {
    if n > 0 {
      HandedInOrder(file, n - 1);
      assert seq(n, _ => Allocate)[..n - 1] == seq(n - 1, _ => Allocate);
    }
  }

  // ---- isolation, from allocation to the published list ----

  /**
   * Two credentials that were given indexes the counter moves on from have different ones, and in a published list that
   * revokes just the first the second reads as not revoked.
   */
  lemma RevokingOneSparesTheOther(file: Option<nat>, steps: seq<Step>, i: nat, j: nat,
                                  gzip: StatusList.Gzip, gunzip: StatusList.Gunzip, o: StatusList.EncodeOptions)
    requires i < |After(file, steps).handed| && j < |After(file, steps).handed| && i != j
    requires forall b :: gunzip(gzip(b)) == Some(b)
    requires var handed := After(file, steps).handed;
      Moves(handed[i]) && Moves(handed[j]) && o.set_ == [handed[i]] && handed[j] < StatusList.Entries(o)
    requires StatusList.EncodeList(gzip, o).Ok?
    requires StatusList.DecodeList(gunzip, StatusList.EncodeList(gzip, o).value, Some(o.statusPurpose)).Ok?
    ensures var handed := After(file, steps).handed;
      var decoded := StatusList.DecodeList(gunzip, StatusList.EncodeList(gzip, o).value, Some(o.statusPurpose)).value;
      && StatusList.StatusOf(decoded, handed[i]).Ok? && StatusList.StatusOf(decoded, handed[i]).value != 0
      && StatusList.StatusOf(decoded, handed[j]) == Ok(0)
  {
    var handed := After(file, steps).handed;
    if i < j {
      NoIndexTwice(file, steps, i, j);
    } else {
      NoIndexTwice(file, steps, j, i);
    }
    assert handed[i] in o.set_;
    StatusList.IndexIsolation(gzip, gunzip, o, handed[i]);
    StatusList.IndexIsolation(gzip, gunzip, o, handed[j]);
  }

  /** Revoking one index leaves the status of every other entry of the list what it was. */
  lemma RevokingChangesNoOther(gzip: StatusList.Gzip, gunzip: StatusList.Gunzip, o: StatusList.EncodeOptions, revoked: nat, other: int)
    requires (forall b :: gunzip(gzip(b)) == Some(b)) && other != revoked && revoked < StatusList.Entries(o)
    requires StatusList.EncodeList(gzip, o).Ok?
    requires StatusList.DecodeList(gunzip, StatusList.EncodeList(gzip, o).value, Some(o.statusPurpose)).Ok?
    ensures var o' := o.(set_ := o.set_ + [revoked]);
      var before := StatusList.DecodeList(gunzip, StatusList.EncodeList(gzip, o).value, Some(o.statusPurpose)).value;
      && StatusList.EncodeList(gzip, o').Ok?
      && var after := StatusList.DecodeList(gunzip, StatusList.EncodeList(gzip, o').value, Some(o.statusPurpose));
        && after.Ok? && StatusList.StatusOf(after.value, other).Ok? == StatusList.StatusOf(before, other).Ok?
        && (StatusList.StatusOf(before, other).Ok? ==>
              (StatusList.StatusOf(after.value, other).value != 0 <==> StatusList.StatusOf(before, other).value != 0))
  {
    var o' := o.(set_ := o.set_ + [revoked]);
    StatusList.IndexIsolation(gzip, gunzip, o, other);
    StatusList.IndexIsolation(gzip, gunzip, o', other);
    assert other in o'.set_ <==> other in o.set_;
  }

  // ---- the revoked set ----

  /** What the process holds and what the disk holds. */
  datatype Store = Store(revoked: set<int>, file: Option<set<int>>)

  /** A write happens whole or not at all; a restart reads the file. */
  datatype StoreStep = Revoke(index: int, writeOk: bool) | Clear(index: int, writeOk: bool) | Reopen

  /** Entries of the file that are not indexes are dropped. */
  function Opened(file: Option<set<int>>): Store {
    Store(if file.None? then {} else (set i | i in file.value && i >= 0), file)
  }

  function StoreNext(s: Store, step: StoreStep): Store {
    match step
    case Revoke(index, writeOk) =>
      var revoked := s.revoked + {index};
      Store(revoked, if writeOk then Some(revoked) else s.file)
    case Clear(index, writeOk) =>
      var revoked := s.revoked - {index};
      Store(revoked, if index in s.revoked && writeOk then Some(revoked) else s.file)
    case Reopen => Opened(s.file)
  }

  class JsonFileStatusListStore {
    var revoked: set<int>
    var file: Option<set<int>>

    function Abstract(): Store reads this { Store(revoked, file) }

    constructor (f: Option<set<int>>)
      ensures Abstract() == Opened(f)
    {
      file := f;
      revoked := if f.None? then {} else set i | i in f.value && i >= 0;
    }

    /** Whether or not the write succeeds, the index counts as revoked from now on; it survives a restart if it does. */
    method Revoke(index: int, writeOk: bool)
      modifies this
      ensures Abstract() == StoreNext(old(Abstract()), StoreStep.Revoke(index, writeOk))
    {
      revoked := revoked + {index};
      if writeOk {
        file := Some(revoked);
      }
    }

    /** Nothing is written when there was nothing to clear. */
    method Clear(index: int, writeOk: bool)
      modifies this
      ensures Abstract() == StoreNext(old(Abstract()), StoreStep.Clear(index, writeOk))
    {
      if index in revoked {
        revoked := revoked - {index};
        if writeOk {
          file := Some(revoked);
        }
      }
    }
  }

  predicate IsLeast(x: int, s: set<int>) {
    x in s && forall y :: y in s ==> x <= y
  }

  function Least(s: set<int>): (x: int)
    requires |s| > 0
    ensures IsLeast(x, s)
  {
    LeastExists(s);
    var x :| IsLeast(x, s);
    x
  }

  lemma Member<T>(s: set<T>) returns (x: T)
    requires |s| > 0
    ensures x in s
  {
    x :| x in s;
  }

  lemma {:induction false} LeastExists(s: set<int>)
    requires |s| > 0
    ensures exists x :: IsLeast(x, s)
    decreases |s|
  {
    var x := Member(s);
    if |s| == 1 {
      OnlyMember(s, x);
      assert IsLeast(x, s);
    } else {
      LeastExists(s - {x});
      var least :| IsLeast(least, s - {x});
      LeastOf(s, x, least);
    }
  }

  lemma LeastOf(s: set<int>, x: int, least: int)
    requires x in s && IsLeast(least, s - {x})
    ensures IsLeast(if x < least then x else least, s)
  {
    var m := if x < least then x else least;
    forall y | y in s
      ensures m <= y
    {
      if y != x {
        assert y in s - {x};
      }
    }
  }

  lemma OnlyMember(s: set<int>, x: int)
    requires |s| == 1 && x in s
    ensures s == {x}
  {
    assert |s - {x}| == 0;
  }

  lemma LeastFirst(s: set<int>, least: int, rest: seq<int>)
    requires IsLeast(least, s) && (forall i :: i in rest <==> i in s - {least})
    requires |rest| == |s - {least}| && forall i, j :: 0 <= i < j < |rest| ==> rest[i] < rest[j]
    ensures var r := [least] + rest; (forall i :: i in r <==> i in s) && |r| == |s| && forall i, j :: 0 <= i < j < |r| ==> r[i] < r[j]
  {
    assert forall i :: 0 <= i < |rest| ==> rest[i] in rest;
    assert |s - {least}| == |s| - 1;
  }

  /** `revokedIndexes`: the members of the set, each once, ascending. */
  function Sorted(s: set<int>): (r: seq<int>)
    ensures (forall i :: i in r <==> i in s) && |r| == |s|
    ensures forall i, j :: 0 <= i < j < |r| ==> r[i] < r[j]
    decreases |s|
  {
    if |s| == 0 then []
    else
      var least := Least(s);
      var rest := Sorted(s - {least});
      LeastFirst(s, least, rest);
      [least] + rest
  }
}

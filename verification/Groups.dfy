/**
 * Groups of prime order `q`, written additively, as modules over the integers modulo `q`,
 * and multi-scalar sums in them.
 */
module Groups {
  datatype Group<!G> = Group(zero: G, add: (G, G) -> G, mul: (int, G) -> G)

  // The laws below are quantified over whole groups. Each is triggered only by its own marker, so
  // that the solver instantiates it exactly where a proof names the elements concerned.
  predicate Mark1<A>(a: A) { true }
  predicate Mark2<A, B>(a: A, b: B) { true }
  predicate Mark3<A, B, C>(a: A, b: B, c: C) { true }

  ghost predicate IsGroup<G(!new)>(m: Group<G>, q: nat) {
    && q > 0
    && (forall x {:trigger Mark1(x)} :: Mark1(x) ==> m.add(x, m.zero) == x)
    && (forall x, y {:trigger Mark2(x, y)} :: Mark2(x, y) ==> m.add(x, y) == m.add(y, x))
    && (forall x, y, z {:trigger Mark3(x, y, z)} :: Mark3(x, y, z) ==> m.add(m.add(x, y), z) == m.add(x, m.add(y, z)))
    && (forall x {:trigger Mark1(x)} :: Mark1(x) ==> m.mul(1, x) == x)
    && (forall a: int, b: int, x {:trigger Mark3(a, b, x)} :: Mark3(a, b, x) ==> m.mul(a + b, x) == m.add(m.mul(a, x), m.mul(b, x)))
    && (forall a: int, b: int, x {:trigger Mark3(a, b, x)} :: Mark3(a, b, x) ==> m.mul(a * b, x) == m.mul(a, m.mul(b, x)))
    && (forall a: int, x, y {:trigger Mark3(a, x, y)} :: Mark3(a, x, y) ==> m.mul(a, m.add(x, y)) == m.add(m.mul(a, x), m.mul(a, y)))
    && (forall a: int, x {:trigger Mark2(a, x)} :: Mark2(a, x) ==> m.mul(a * q, x) == m.zero)
  }

  lemma ZeroLaw<G(!new)>(m: Group<G>, q: nat, x: G)
    requires IsGroup(m, q)
    ensures m.add(x, m.zero) == x && m.add(m.zero, x) == x
    ensures m.mul(0, x) == m.zero
  {
    assert Mark1(x) && Mark2(x, m.zero) && Mark2(0, x);
    assert 0 * q == 0;
  }

  lemma One<G(!new)>(m: Group<G>, q: nat, x: G)
    requires IsGroup(m, q)
    ensures m.mul(1, x) == x
  {
    assert Mark1(x);
  }

  lemma Comm<G(!new)>(m: Group<G>, q: nat, x: G, y: G)
    requires IsGroup(m, q)
    ensures m.add(x, y) == m.add(y, x)
  {
    assert Mark2(x, y);
  }

  lemma Assoc<G(!new)>(m: Group<G>, q: nat, x: G, y: G, z: G)
    requires IsGroup(m, q)
    ensures m.add(m.add(x, y), z) == m.add(x, m.add(y, z))
  {
    assert Mark3(x, y, z);
  }

  lemma MulSum<G(!new)>(m: Group<G>, q: nat, a: int, b: int, x: G)
    requires IsGroup(m, q)
    ensures m.mul(a + b, x) == m.add(m.mul(a, x), m.mul(b, x))
  {
    assert Mark3(a, b, x);
  }

  lemma MulMul<G(!new)>(m: Group<G>, q: nat, a: int, b: int, x: G)
    requires IsGroup(m, q)
    ensures m.mul(a * b, x) == m.mul(a, m.mul(b, x))
  {
    assert Mark3(a, b, x);
  }

  lemma MulAdd<G(!new)>(m: Group<G>, q: nat, a: int, x: G, y: G)
    requires IsGroup(m, q)
    ensures m.mul(a, m.add(x, y)) == m.add(m.mul(a, x), m.mul(a, y))
  {
    assert Mark3(a, x, y);
  }

  lemma MulZero<G(!new)>(m: Group<G>, q: nat, a: int)
    requires IsGroup(m, q)
    ensures m.mul(a, m.zero) == m.zero
  {
    ZeroLaw(m, q, m.zero);
    MulMul(m, q, a, 0, m.zero);
    assert a * 0 == 0;
  }

  /** Scalars matter only modulo the group order. */
  lemma MulCongruent<G(!new)>(m: Group<G>, q: nat, a: int, b: int, k: int, x: G)
    requires IsGroup(m, q) && a == b + k * q
    ensures m.mul(a, x) == m.mul(b, x)
  {
    MulSum(m, q, b, k * q, x);
    assert Mark2(k, x);
    ZeroLaw(m, q, m.mul(b, x));
  }

  lemma Swap<G(!new)>(m: Group<G>, q: nat, x: G, y: G, z: G, w: G)
    requires IsGroup(m, q)
    ensures m.add(m.add(x, y), m.add(z, w)) == m.add(m.add(x, z), m.add(y, w))
  {
    Assoc(m, q, x, y, m.add(z, w));
    Assoc(m, q, y, z, w);
    Comm(m, q, y, z);
    Assoc(m, q, z, y, w);
    Assoc(m, q, x, z, m.add(y, w));
  }

  /** x + y = z determines x. */
  lemma Cancel<G(!new)>(m: Group<G>, q: nat, x: G, y: G, x': G)
    requires IsGroup(m, q) && m.add(x, y) == m.add(x', y)
    ensures x == x'
  {
    var n := m.mul(-1, y);
    MulSum(m, q, 1, -1, y);
    One(m, q, y);
    ZeroLaw(m, q, y);
    Assoc(m, q, x, y, n);
    Assoc(m, q, x', y, n);
    ZeroLaw(m, q, x);
    ZeroLaw(m, q, x');
  }

  // ---- multi-scalar sums ----

  /** The sum of `cs[i] * xs[i]`: what the host's `g1_msm` computes. */
  function Msm<G>(m: Group<G>, xs: seq<G>, cs: seq<int>): G
    requires |xs| == |cs|
  {
    if xs == [] then m.zero
    else m.add(Msm(m, xs[..|xs| - 1], cs[..|cs| - 1]), m.mul(cs[|cs| - 1], xs[|xs| - 1]))
  }

  lemma MsmPush<G(!new)>(m: Group<G>, xs: seq<G>, cs: seq<int>, x: G, c: int)
    requires |xs| == |cs|
    ensures Msm(m, xs + [x], cs + [c]) == m.add(Msm(m, xs, cs), m.mul(c, x))
  {
    assert (xs + [x])[..|xs|] == xs && (cs + [c])[..|cs|] == cs;
  }

  lemma {:induction false} MsmConcat<G(!new)>(m: Group<G>, q: nat, xs: seq<G>, cs: seq<int>, ys: seq<G>, ds: seq<int>)
    requires IsGroup(m, q) && |xs| == |cs| && |ys| == |ds|
    ensures Msm(m, xs + ys, cs + ds) == m.add(Msm(m, xs, cs), Msm(m, ys, ds))
  {
    if ys == [] {
      assert xs + ys == xs && cs + ds == cs;
      ZeroLaw(m, q, Msm(m, xs, cs));
    } else {
      var k := |ys| - 1;
      MsmConcat(m, q, xs, cs, ys[..k], ds[..k]);
      assert xs + ys == (xs + ys[..k]) + [ys[k]] && cs + ds == (cs + ds[..k]) + [ds[k]];
      MsmPush(m, xs + ys[..k], cs + ds[..k], ys[k], ds[k]);
      Assoc(m, q, Msm(m, xs, cs), Msm(m, ys[..k], ds[..k]), m.mul(ds[k], ys[k]));
    }
  }

  lemma MsmPair<G(!new)>(m: Group<G>, q: nat, x: G, y: G, a: int, b: int)
    requires IsGroup(m, q)
    ensures Msm(m, [x, y], [a, b]) == m.add(m.mul(a, x), m.mul(b, y))
  {
    MsmPush(m, [], [], x, a);
    MsmPush(m, [x], [a], y, b);
    assert [] + [x] == [x] && [] + [a] == [a] && [x] + [y] == [x, y] && [a] + [b] == [a, b];
    ZeroLaw(m, q, m.mul(a, x));
  }

  lemma MsmTriple<G(!new)>(m: Group<G>, q: nat, x: G, y: G, z: G, a: int, b: int, c: int)
    requires IsGroup(m, q)
    ensures Msm(m, [x, y, z], [a, b, c]) == m.add(m.add(m.mul(a, x), m.mul(b, y)), m.mul(c, z))
  {
    MsmPair(m, q, x, y, a, b);
    MsmPush(m, [x, y], [a, b], z, c);
    assert [x, y] + [z] == [x, y, z] && [a, b] + [c] == [a, b, c];
  }

  function Plus(a: seq<int>, b: seq<int>): (c: seq<int>)
    requires |a| == |b|
    ensures |c| == |a|
  {
    seq(|a|, i requires 0 <= i < |a| => a[i] + b[i])
  }

  function Scale(k: int, a: seq<int>): (c: seq<int>)
    ensures |c| == |a|
  {
    seq(|a|, i requires 0 <= i < |a| => k * a[i])
  }

  lemma {:induction false} MsmPlus<G(!new)>(m: Group<G>, q: nat, xs: seq<G>, a: seq<int>, b: seq<int>)
    requires IsGroup(m, q) && |xs| == |a| == |b|
    ensures Msm(m, xs, Plus(a, b)) == m.add(Msm(m, xs, a), Msm(m, xs, b))
  {
    if xs == [] {
      ZeroLaw(m, q, m.zero);
    } else {
      var k := |xs| - 1;
      MsmPlus(m, q, xs[..k], a[..k], b[..k]);
      assert Plus(a, b)[..k] == Plus(a[..k], b[..k]);
      MulSum(m, q, a[k], b[k], xs[k]);
      Swap(m, q, Msm(m, xs[..k], a[..k]), Msm(m, xs[..k], b[..k]), m.mul(a[k], xs[k]), m.mul(b[k], xs[k]));
    }
  }

  lemma {:induction false} MsmScale<G(!new)>(m: Group<G>, q: nat, xs: seq<G>, k: int, a: seq<int>)
    requires IsGroup(m, q) && |xs| == |a|
    ensures Msm(m, xs, Scale(k, a)) == m.mul(k, Msm(m, xs, a))
  {
    if xs == [] {
      MulZero(m, q, k);
    } else {
      var n := |xs| - 1;
      MsmScale(m, q, xs[..n], k, a[..n]);
      assert Scale(k, a)[..n] == Scale(k, a[..n]);
      MulMul(m, q, k, a[n], xs[n]);
      MulAdd(m, q, k, Msm(m, xs[..n], a[..n]), m.mul(a[n], xs[n]));
    }
  }

  /** `ks` witnesses that the coefficients agree modulo the group order. */
  ghost predicate Congruent(a: seq<int>, b: seq<int>, ks: seq<int>, q: nat) {
    |a| == |b| == |ks| && forall i :: 0 <= i < |a| ==> a[i] == b[i] + ks[i] * q
  }

  lemma {:induction false} MsmCongruent<G(!new)>(m: Group<G>, q: nat, xs: seq<G>, a: seq<int>, b: seq<int>, ks: seq<int>)
    requires IsGroup(m, q) && |xs| == |a| && Congruent(a, b, ks, q)
    ensures Msm(m, xs, a) == Msm(m, xs, b)
  {
    if xs != [] {
      var k := |xs| - 1;
      MsmCongruent(m, q, xs[..k], a[..k], b[..k], ks[..k]);
      MulCongruent(m, q, a[k], b[k], ks[k], xs[k]);
    }
  }

  /** Raising one coefficient adds that multiple of one point. */
  lemma {:induction false} MsmBump<G(!new)>(m: Group<G>, q: nat, xs: seq<G>, a: seq<int>, i: nat, c: int)
    requires IsGroup(m, q) && |xs| == |a| && i < |a|
    ensures Msm(m, xs, a[i := a[i] + c]) == m.add(Msm(m, xs, a), m.mul(c, xs[i]))
  {
    var k := |xs| - 1;
    var a' := a[i := a[i] + c];
    var rest := Msm(m, xs[..k], a[..k]);
    if i == k {
      assert a'[..k] == a[..k];
      MulSum(m, q, a[k], c, xs[k]);
      Assoc(m, q, rest, m.mul(a[k], xs[k]), m.mul(c, xs[k]));
    } else {
      MsmBump(m, q, xs[..k], a[..k], i, c);
      assert a'[..k] == a[..k][i := a[i] + c];
      var add, last := m.mul(c, xs[i]), m.mul(a[k], xs[k]);
      Assoc(m, q, rest, add, last);
      Comm(m, q, add, last);
      Assoc(m, q, rest, last, add);
    }
  }

  function Zeros(n: nat): (z: seq<int>)
    ensures |z| == n
  {
    seq(n, _ => 0)
  }

  lemma {:induction false} MsmZeros<G(!new)>(m: Group<G>, q: nat, xs: seq<G>)
    requires IsGroup(m, q)
    ensures Msm(m, xs, Zeros(|xs|)) == m.zero
  {
    if xs != [] {
      var k := |xs| - 1;
      MsmZeros(m, q, xs[..k]);
      assert Zeros(|xs|)[..k] == Zeros(k);
      ZeroLaw(m, q, xs[k]);
      ZeroLaw(m, q, m.zero);
    }
  }

  /** The points at the listed positions. */
  function Pick<G>(xs: seq<G>, at: seq<nat>): (ps: seq<G>)
    requires forall i :: 0 <= i < |at| ==> at[i] < |xs|
    ensures |ps| == |at|
  {
    seq(|at|, i requires 0 <= i < |at| => xs[at[i]])
  }

  /** The coefficient every one of `n` points receives from a list of (position, scalar) pushes. */
  function Dense(n: nat, at: seq<nat>, cs: seq<int>): (d: seq<int>)
    requires |at| == |cs| && forall i :: 0 <= i < |at| ==> at[i] < n
    ensures |d| == n
  {
    if at == [] then Zeros(n)
    else
      var d := Dense(n, at[..|at| - 1], cs[..|cs| - 1]);
      var i := at[|at| - 1];
      d[i := d[i] + cs[|cs| - 1]]
  }

  lemma {:induction false} MsmPick<G(!new)>(m: Group<G>, q: nat, xs: seq<G>, at: seq<nat>, cs: seq<int>)
    requires IsGroup(m, q) && |at| == |cs|
    requires forall i :: 0 <= i < |at| ==> at[i] < |xs|
    ensures Msm(m, Pick(xs, at), cs) == Msm(m, xs, Dense(|xs|, at, cs))
  {
    if at == [] {
      MsmZeros(m, q, xs);
    } else {
      var k := |at| - 1;
      MsmPick(m, q, xs, at[..k], cs[..k]);
      assert Pick(xs, at)[..k] == Pick(xs, at[..k]);
      MsmBump(m, q, xs, Dense(|xs|, at[..k], cs[..k]), at[k], cs[k]);
    }
  }

  ghost predicate Distinct(at: seq<nat>) {
    forall i, j :: 0 <= i < j < |at| ==> at[i] != at[j]
  }

  /** With distinct positions every listed point receives its own scalar and every other point none. */
  lemma {:induction false} DenseAt(n: nat, at: seq<nat>, cs: seq<int>)
    requires |at| == |cs| && (forall i :: 0 <= i < |at| ==> at[i] < n) && Distinct(at)
    ensures forall i :: 0 <= i < |at| ==> Dense(n, at, cs)[at[i]] == cs[i]
    ensures forall p :: 0 <= p < n && p !in at ==> Dense(n, at, cs)[p] == 0
  {
    if at != [] {
      var k := |at| - 1;
      DenseAt(n, at[..k], cs[..k]);
      assert at[k] !in at[..k];
      forall p | 0 <= p < n && p !in at
        ensures Dense(n, at, cs)[p] == 0
      {
        assert p !in at[..k];
      }
    }
  }
}

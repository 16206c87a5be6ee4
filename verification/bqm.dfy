/**
 * The part of dimod's BinaryQuadraticModel (SPIN vartype) that the NAE3SAT
 * encoder relies on: an empty model, `add_interaction`, and
 * `add_interactions_from` over a dictionary of `(u, v): bias` entries.
 *
 * Modelling assumption (library behaviour, not the repository's code):
 * adding an interaction ADDS its bias to the bias already stored for the
 * unordered pair (0 when absent), and adds each endpoint that is not yet a
 * variable with linear bias 0; nothing else changes.
 */
module DimodBqm {

  /** An unordered pair of variables, stored as (smaller, larger). */
  datatype Edge = Edge(lo: int, hi: int)

  function EdgeOf(u: int, v: int): Edge {
    if u < v then Edge(u, v) else Edge(v, u)
  }

  /** One entry `(u, v): bias` of an interaction dictionary. */
  datatype Term = Term(u: int, v: int, bias: int)

  /** No entry is a self-loop. */
  predicate Proper(ts: seq<Term>) {
    forall p :: 0 <= p < |ts| ==> ts[p].u != ts[p].v
  }

  /** The value of a model: linear biases, quadratic biases, offset. */
  datatype Model = Model(linear: map<int, int>, quadratic: map<Edge, int>, offset: int)

  /** `BinaryQuadraticModel(vartype="SPIN")`: no variables, no interactions, offset 0. */
  const Empty: Model := Model(map[], map[], 0)

  /** A bias, 0 where the key is absent. */
  function Get<K>(m: map<K, int>, k: K): int {
    if k in m then m[k] else 0
  }

  function AddVariable(linear: map<int, int>, x: int): map<int, int> {
    if x in linear then linear else linear[x := 0]
  }

  /** `add_interaction(u, v, bias)`. */
  function WithInteraction(m: Model, t: Term): Model
    requires t.u != t.v
  {
    var e := EdgeOf(t.u, t.v);
    Model(AddVariable(AddVariable(m.linear, t.u), t.v),
          m.quadratic[e := Get(m.quadratic, e) + t.bias],
          m.offset)
  }

  /** Both endpoints of every entry. */
  function Endpoints(ts: seq<Term>): set<int> {
    if ts == [] then {} else Endpoints(ts[..|ts| - 1]) + {ts[|ts| - 1].u, ts[|ts| - 1].v}
  }

  /** The unordered pair of every entry. */
  function EdgesOf(ts: seq<Term>): set<Edge> {
    if ts == [] then {} else EdgesOf(ts[..|ts| - 1]) + {EdgeOf(ts[|ts| - 1].u, ts[|ts| - 1].v)}
  }

  /** The sum of the biases that the entries give to the pair `e`. */
  function TermsBias(ts: seq<Term>, e: Edge): int {
    if ts == [] then 0
    else
      var t := ts[|ts| - 1];
      TermsBias(ts[..|ts| - 1], e) + (if EdgeOf(t.u, t.v) == e then t.bias else 0)
  }

  /**
   * `add_interactions_from(ts)`: the entries are added one after the other.
   * Every pair named gets the sum of the biases given to it added to its
   * old bias; new endpoints join with linear bias 0; the rest is unchanged.
   */
  function WithInteractions(m: Model, ts: seq<Term>): (r: Model)
    requires Proper(ts)
    ensures r.offset == m.offset
    ensures forall x :: x in r.linear <==> x in m.linear || x in Endpoints(ts)
    ensures forall x :: x in m.linear ==> r.linear[x] == m.linear[x]
    ensures forall x :: x in r.linear && x !in m.linear ==> r.linear[x] == 0
    ensures forall e :: e in r.quadratic <==> e in m.quadratic || e in EdgesOf(ts)
    ensures forall e :: Get(r.quadratic, e) == Get(m.quadratic, e) + TermsBias(ts, e)
    decreases |ts|
  {
    if ts == [] then m
    else WithInteraction(WithInteractions(m, ts[..|ts| - 1]), ts[|ts| - 1])
  }

  // Endpoints, pairs, biases and energy of a concatenation of entries split over the parts.

  lemma {:induction false} EndpointsConcat(a: seq<Term>, b: seq<Term>)
    ensures Endpoints(a + b) == Endpoints(a) + Endpoints(b)
    decreases |b|
  {
    if b == [] {
      assert a + b == a;
    } else {
      EndpointsConcat(a, b[..|b| - 1]);
      assert (a + b)[..|a + b| - 1] == a + b[..|b| - 1];
    }
  }

  lemma {:induction false} EdgesConcat(a: seq<Term>, b: seq<Term>)
    ensures EdgesOf(a + b) == EdgesOf(a) + EdgesOf(b)
    decreases |b|
  {
    if b == [] {
      assert a + b == a;
    } else {
      EdgesConcat(a, b[..|b| - 1]);
      assert (a + b)[..|a + b| - 1] == a + b[..|b| - 1];
    }
  }

  lemma {:induction false} BiasConcat(a: seq<Term>, b: seq<Term>, e: Edge)
    ensures TermsBias(a + b, e) == TermsBias(a, e) + TermsBias(b, e)
    decreases |b|
  {
    if b == [] {
      assert a + b == a;
    } else {
      BiasConcat(a, b[..|b| - 1], e);
      assert (a + b)[..|a + b| - 1] == a + b[..|b| - 1];
    }
  }

  lemma {:induction false} EnergyConcat(a: seq<Term>, b: seq<Term>, spin: int -> int)
    ensures TermsEnergy(a + b, spin) == TermsEnergy(a, spin) + TermsEnergy(b, spin)
    decreases |b|
  {
    if b == [] {
      assert a + b == a;
    } else {
      EnergyConcat(a, b[..|b| - 1], spin);
      assert (a + b)[..|a + b| - 1] == a + b[..|b| - 1];
    }
  }

  /** The mutable model object that the encoder builds. */
  class BinaryQuadraticModel {
    var linear: map<int, int>
    var quadratic: map<Edge, int>
    var offset: int

    function Value(): Model
      reads this
    {
      Model(linear, quadratic, offset)
    }

    constructor ()
      ensures Value() == Empty
    {
      linear, quadratic, offset := map[], map[], 0;
    }

    method AddInteraction(u: int, v: int, bias: int)
      requires u != v
      modifies this
      ensures Value() == WithInteraction(old(Value()), Term(u, v, bias))
    {
      var e := EdgeOf(u, v);
      linear := AddVariable(AddVariable(linear, u), v);
      quadratic := quadratic[e := Get(quadratic, e) + bias];
    }

    method AddInteractionsFrom(ts: seq<Term>)
      requires Proper(ts)
      modifies this
      ensures Value() == WithInteractions(old(Value()), ts)
    {
      for p := 0 to |ts|
        invariant Value() == WithInteractions(old(Value()), ts[..p])
      {
        AddInteraction(ts[p].u, ts[p].v, ts[p].bias);
        assert ts[..p + 1][..p] == ts[..p];
      }
      assert ts[..|ts|] == ts;
    }
  }

  // ---------------------------------------------------------------------
  // Energy of a SPIN model: offset + sum of linear[v] * s(v)
  // + sum of quadratic[{u, v}] * s(u) * s(v).

  /** The sum of `m[k] * w(k)` over `keys`. */
  ghost function SumOver<K>(m: map<K, int>, keys: set<K>, w: K -> int): int
    requires keys <= m.Keys
    decreases keys
  {
    if keys == {} then 0
    else
      var k :| k in keys;
      m[k] * w(k) + SumOver(m, keys - {k}, w)
  }

  /** The weight `s(u) * s(v)` of an interaction under the spins `s`. */
  function Couplings(spin: int -> int): Edge -> int {
    (e: Edge) => spin(e.lo) * spin(e.hi)
  }

  ghost function Energy(m: Model, spin: int -> int): int {
    m.offset
    + SumOver(m.linear, m.linear.Keys, spin)
    + SumOver(m.quadratic, m.quadratic.Keys, Couplings(spin))
  }

  /** The energy that the entries of an interaction dictionary contribute. */
  function TermsEnergy(ts: seq<Term>, spin: int -> int): int {
    if ts == [] then 0
    else
      var t := ts[|ts| - 1];
      TermsEnergy(ts[..|ts| - 1], spin) + t.bias * (spin(t.u) * spin(t.v))
  }

  /** Any key can be taken out of the sum first. */
  lemma SumOverRemove<K>(m: map<K, int>, keys: set<K>, w: K -> int, k: K)
    requires keys <= m.Keys && k in keys
    ensures SumOver(m, keys, w) == m[k] * w(k) + SumOver(m, keys - {k}, w)
    decreases keys
  {
    var j :| j in keys && SumOver(m, keys, w) == m[j] * w(j) + SumOver(m, keys - {j}, w);
    if j != k {
      SumOverRemove(m, keys - {j}, w, k);
      SumOverRemove(m, keys - {k}, w, j);
      assert keys - {j} - {k} == keys - {k} - {j};
    }
  }

  /** The sum depends only on the values at the keys summed over. */
  lemma {:induction false} SumOverFrame<K>(m: map<K, int>, m': map<K, int>, keys: set<K>, w: K -> int)
    requires keys <= m.Keys && keys <= m'.Keys
    requires forall k :: k in keys ==> m[k] == m'[k]
    ensures SumOver(m, keys, w) == SumOver(m', keys, w)
    decreases keys
  {
    if keys != {} {
      var k :| k in keys;
      SumOverRemove(m, keys, w, k);
      SumOverRemove(m', keys, w, k);
      SumOverFrame(m, m', keys - {k}, w);
    }
  }

  /** Storing `v` under `k` replaces that key's share of the sum. */
  lemma SumOverUpdate<K>(m: map<K, int>, k: K, v: int, w: K -> int)
    ensures SumOver(m[k := v], m[k := v].Keys, w) == SumOver(m, m.Keys, w) - Get(m, k) * w(k) + v * w(k)
  {
    var m' := m[k := v];
    SumOverRemove(m', m'.Keys, w, k);
    if k in m {
      assert m'.Keys == m.Keys;
      SumOverRemove(m, m.Keys, w, k);
      SumOverFrame(m, m', m.Keys - {k}, w);
    } else {
      assert m'.Keys - {k} == m.Keys;
      SumOverFrame(m, m', m.Keys, w);
    }
  }

  /** Adding a variable with linear bias 0 leaves the linear energy as it was. */
  lemma LinearSumAddVariable(linear: map<int, int>, x: int, spin: int -> int)
    ensures SumOver(AddVariable(linear, x), AddVariable(linear, x).Keys, spin)
         == SumOver(linear, linear.Keys, spin)
  {
    if x !in linear {
      SumOverUpdate(linear, x, 0, spin);
    }
  }

  /** Adding `b` to the bias of `k` adds `b * w(k)` to the sum. */
  lemma SumOverAdd<K>(m: map<K, int>, k: K, b: int, w: K -> int)
    ensures SumOver(m[k := Get(m, k) + b], m[k := Get(m, k) + b].Keys, w) == SumOver(m, m.Keys, w) + b * w(k)
  {
    SumOverUpdate(m, k, Get(m, k) + b, w);
    assert (Get(m, k) + b) * w(k) == Get(m, k) * w(k) + b * w(k);
  }

  /** Adding one interaction leaves the linear part of the energy as it was. */
  lemma LinearEnergyWithInteraction(m: Model, t: Term, spin: int -> int)
    requires t.u != t.v
    ensures SumOver(WithInteraction(m, t).linear, WithInteraction(m, t).linear.Keys, spin)
         == SumOver(m.linear, m.linear.Keys, spin)
  {
    LinearSumAddVariable(m.linear, t.u, spin);
    LinearSumAddVariable(AddVariable(m.linear, t.u), t.v, spin);
  }

  /** The coupling of a pair does not depend on the order its ends are given in. */
  lemma CouplingOf(spin: int -> int, u: int, v: int)
    ensures Couplings(spin)(EdgeOf(u, v)) == spin(u) * spin(v)
  {
    if v < u {
      assert spin(v) * spin(u) == spin(u) * spin(v);
    }
  }

  /** Adding one interaction adds `bias * s(u) * s(v)` to the quadratic part of the energy. */
  lemma QuadraticEnergyWithInteraction(m: Model, t: Term, spin: int -> int)
    requires t.u != t.v
    ensures SumOver(WithInteraction(m, t).quadratic, WithInteraction(m, t).quadratic.Keys, Couplings(spin))
         == SumOver(m.quadratic, m.quadratic.Keys, Couplings(spin)) + t.bias * (spin(t.u) * spin(t.v))
  {
    var e, w := EdgeOf(t.u, t.v), Couplings(spin);
    var q := m.quadratic[e := Get(m.quadratic, e) + t.bias];
    assert WithInteraction(m, t).quadratic == q;
    SumOverAdd(m.quadratic, e, t.bias, w);
    CouplingOf(spin, t.u, t.v);
  }

  /** Adding one interaction adds `bias * s(u) * s(v)` to every energy. */
  lemma EnergyWithInteraction(m: Model, t: Term, spin: int -> int)
    requires t.u != t.v
    ensures Energy(WithInteraction(m, t), spin) == Energy(m, spin) + t.bias * (spin(t.u) * spin(t.v))
  {
    LinearEnergyWithInteraction(m, t, spin);
    QuadraticEnergyWithInteraction(m, t, spin);
  }

  /** `add_interactions_from` adds the energy of its entries to every energy. */
  lemma {:induction false} EnergyWithInteractions(m: Model, ts: seq<Term>, spin: int -> int)
    requires Proper(ts)
    ensures Energy(WithInteractions(m, ts), spin) == Energy(m, spin) + TermsEnergy(ts, spin)
    decreases |ts|
  {
    if ts != [] {
      EnergyWithInteractions(m, ts[..|ts| - 1], spin);
      EnergyWithInteraction(WithInteractions(m, ts[..|ts| - 1]), ts[|ts| - 1], spin);
    }
  }
}

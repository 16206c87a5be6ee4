/**
 * The NAE3SAT generator of utilities/nae3sat_generator.py:
 *   KmcSat       draws a clause table and a sign table (`kmc_sat`),
 *   KmcSatToBqm  encodes them into a SPIN model (`kmc_sat_to_bqm`),
 *   Nae3sat      composes the two with three variables per clause (`nae3sat`).
 * `Encode` is the pure specification of the encoder: the fold over the clauses
 * of the interaction dictionary of each clause (`ClauseTerms`).
 */
module Nae3satGenerator {
  import opened DimodBqm
  import opened NumpyRandom

  // ---------------------------------------------------------------------
  // Clauses and the per-clause interaction dictionary

  /** One clause as `zip` pairs them: its row of variables and its row of signs. */
  datatype Clause = Clause(vars: seq<int>, signs: seq<int>)

  /**
   * A sign for every position that the dictionary reads: a clause of at most
   * one variable forms no pair and reads no sign.
   */
  predicate Signed(c: Clause) {
    |c.vars| <= 1 || |c.vars| <= |c.signs|
  }

  /** What the encoder needs of a clause: no variable twice, a sign for every position it reads. */
  predicate WellFormed(c: Clause) {
    Distinct(c.vars) && Signed(c)
  }

  /** A well-formed clause with a sign for every position, as every clause of two or more variables has. */
  predicate FullySigned(c: Clause) {
    Distinct(c.vars) && |c.vars| <= |c.signs|
  }

  predicate AllWellFormed(cs: seq<Clause>) {
    forall c :: c in cs ==> WellFormed(c)
  }

  /** The entry `(vars[i], vars[j]): signs[i] * signs[j]` for positions j < i. */
  function PairTerm(c: Clause, i: nat, j: nat): Term
    requires j < i < |c.vars| <= |c.signs|
  {
    Term(c.vars[i], c.vars[j], c.signs[i] * c.signs[j])
  }

  /** The entries for position `i` and `j` in `range(n)` (inner comprehension loop). */
  function RowTerms(c: Clause, i: nat, n: nat): (r: seq<Term>)
    requires n <= i < |c.vars| <= |c.signs|
    ensures |r| == n
    ensures forall j :: 0 <= j < n ==> r[j] == PairTerm(c, i, j)
  {
    if n == 0 then [] else RowTerms(c, i, n - 1) + [PairTerm(c, i, n - 1)]
  }

  /** The number of position pairs j < i below `n`. */
  function Pairs(n: nat): nat {
    if n == 0 then 0 else Pairs(n - 1) + (n - 1)
  }

  /** The entries for `i` in `range(n)` (outer comprehension loop), in dictionary order. */
  function TermsUpTo(c: Clause, n: nat): (r: seq<Term>)
    requires n <= |c.vars| <= |c.signs|
    ensures |r| == Pairs(n)
  {
    if n == 0 then [] else TermsUpTo(c, n - 1) + RowTerms(c, n - 1, n - 1)
  }

  /**
   * The dictionary passed to `add_interactions_from` for one clause. A clause
   * of at most one variable forms no pair, so none of its signs is read.
   */
  function ClauseTerms(c: Clause): seq<Term>
    requires Signed(c)
  {
    if |c.vars| <= 1 then [] else TermsUpTo(c, |c.vars|)
  }

  // ---------------------------------------------------------------------
  // Reference definitions: what the final model should hold

  /** The position of `x` in `vs`. */
  ghost function IndexOf(vs: seq<int>, x: int): (r: nat)
    requires x in vs
    ensures r < |vs| && vs[r] == x
  {
    var k :| 0 <= k < |vs| && vs[k] == x; k
  }

  /** The sign of variable `x` in clause `c`. */
  ghost function SignOf(c: Clause, x: int): int
    requires |c.vars| <= |c.signs| && x in c.vars
  {
    c.signs[IndexOf(c.vars, x)]
  }

  /** A sequence holding two different values has at least two elements. */
  lemma TwoMembers(vs: seq<int>, a: int, b: int)
    ensures a in vs && b in vs && a != b ==> |vs| >= 2
  {
  }

  /** Both ends of the (proper) pair `e` occur in `vs`. */
  predicate Covers(vs: seq<int>, e: Edge) {
    e.lo < e.hi && e.lo in vs && e.hi in vs
  }

  /** The bias a clause gives to `e`: the product of the two signs, if it holds both. */
  ghost function ClauseBias(c: Clause, e: Edge): int
    requires Signed(c)
  {
    if Covers(c.vars, e) then TwoMembers(c.vars, e.lo, e.hi); SignOf(c, e.lo) * SignOf(c, e.hi) else 0
  }

  /** The sum over the clauses of the bias each gives to `e`. */
  ghost function PairBias(cs: seq<Clause>, e: Edge): int
    requires AllWellFormed(cs)
  {
    if cs == [] then 0
    else
      assert cs[|cs| - 1] in cs;
      PairBias(cs[..|cs| - 1], e) + ClauseBias(cs[|cs| - 1], e)
  }

  // ---------------------------------------------------------------------
  // The encoder as a pure fold

  /** The model after adding the dictionaries of the clauses, in order, to an empty model. */
  function Encode(cs: seq<Clause>): Model
    requires AllWellFormed(cs)
  {
    if cs == [] then Empty
    else
      var c := cs[|cs| - 1];
      assert c in cs;
      ClauseTermsShape(c);
      WithInteractions(Encode(cs[..|cs| - 1]), ClauseTerms(c))
  }

  // ---------------------------------------------------------------------
  // Lemmas about the dictionary of one clause

  /** Closed form: `Pairs(n)` is n(n-1)/2. */
  lemma {:induction false} PairsClosedForm(n: nat)
    ensures 2 * Pairs(n) == n * (n - 1)
  {
    if n > 0 {
      PairsClosedForm(n - 1);
      assert n * (n - 1) == (n - 1) * (n - 2) + 2 * (n - 1);
    }
  }

  lemma {:induction false} PairsMonotone(i: nat, n: nat)
    requires i <= n
    ensures Pairs(i) <= Pairs(n)
    decreases n
  {
    if i < n {
      PairsMonotone(i, n - 1);
    }
  }

  /** The entry for positions j < i sits where the nested loops reach it. */
  lemma {:induction false} TermsUpToAt(c: Clause, n: nat, i: nat, j: nat)
    requires n <= |c.vars| <= |c.signs|
    requires j < i < n
    ensures Pairs(i) + j < |TermsUpTo(c, n)|
    ensures TermsUpTo(c, n)[Pairs(i) + j] == PairTerm(c, i, j)
  {
    if i < n - 1 {
      TermsUpToAt(c, n - 1, i, j);
      PairsMonotone(i + 1, n - 1);
    }
  }

  /** A clause of k variables gives exactly k(k-1)/2 entries. */
  lemma ClauseTermsCount(c: Clause)
    requires Signed(c)
    ensures 2 * |ClauseTerms(c)| == |c.vars| * (|c.vars| - 1)
  {
    if |c.vars| >= 2 {
      PairsClosedForm(|c.vars|);
    }
  }

  /** The entry for positions j < i is `(vars[i], vars[j]): signs[i] * signs[j]`, at index i(i-1)/2 + j. */
  lemma ClauseTermsAt(c: Clause, i: nat, j: nat)
    requires Signed(c)
    requires j < i < |c.vars|
    ensures 2 * Pairs(i) == i * (i - 1)
    ensures Pairs(i) + j < |ClauseTerms(c)|
    ensures ClauseTerms(c)[Pairs(i) + j] == PairTerm(c, i, j)
  {
    TermsUpToAt(c, |c.vars|, i, j);
    PairsClosedForm(i);
  }

  /** Every entry pairs two different variables; with spin signs, every bias is -1 or +1. */
  lemma {:induction false} TermsUpToShape(c: Clause, n: nat)
    requires FullySigned(c) && n <= |c.vars|
    ensures Proper(TermsUpTo(c, n))
    ensures (forall i :: 0 <= i < |c.signs| ==> c.signs[i] == -1 || c.signs[i] == 1) ==>
              forall p :: 0 <= p < Pairs(n) ==> TermsUpTo(c, n)[p].bias == -1 || TermsUpTo(c, n)[p].bias == 1
  {
    if n > 0 {
      TermsUpToShape(c, n - 1);
    }
  }

  /** The dictionary of a clause has no self-loops, and with spin signs every coefficient is -1 or +1. */
  lemma ClauseTermsShape(c: Clause)
    requires WellFormed(c)
    ensures Proper(ClauseTerms(c))
    ensures (forall i :: 0 <= i < |c.signs| ==> c.signs[i] == -1 || c.signs[i] == 1) ==>
              forall p :: 0 <= p < |ClauseTerms(c)| ==> ClauseTerms(c)[p].bias == -1 || ClauseTerms(c)[p].bias == 1
  {
    if |c.vars| >= 2 {
      TermsUpToShape(c, |c.vars|);
    }
  }

  // ---------------------------------------------------------------------
  // What the dictionary of one clause adds: its variables, its pairs, their biases

  /** `x` is one of the first `n` variables of `vs`. */
  ghost predicate InPrefix(vs: seq<int>, n: nat, x: int) {
    x in vs && IndexOf(vs, x) < n
  }

  /** `e` joins `x` to one of the first `n` variables of `vs`. */
  ghost predicate Links(x: int, vs: seq<int>, n: nat, e: Edge) {
    e.lo < e.hi && ((e.lo == x && InPrefix(vs, n, e.hi)) || (e.hi == x && InPrefix(vs, n, e.lo)))
  }

  /** Both ends of `e` are among the first `n` variables of `vs`. */
  ghost predicate CoversUpTo(vs: seq<int>, n: nat, e: Edge) {
    e.lo < e.hi && InPrefix(vs, n, e.lo) && InPrefix(vs, n, e.hi)
  }

  lemma IndexOfDistinct(vs: seq<int>, k: nat)
    requires Distinct(vs) && k < |vs|
    ensures IndexOf(vs, vs[k]) == k
  {
  }

  /** The prefix of length `n` grows by exactly `vs[n - 1]`. */
  lemma InPrefixStep(vs: seq<int>, n: nat)
    requires Distinct(vs) && 0 < n <= |vs|
    ensures forall x :: InPrefix(vs, n, x) <==> InPrefix(vs, n - 1, x) || x == vs[n - 1]
    ensures !InPrefix(vs, n - 1, vs[n - 1])
  {
    IndexOfDistinct(vs, n - 1);
  }

  lemma {:induction false} RowEndpoints(c: Clause, i: nat, n: nat, x: int)
    requires FullySigned(c) && n <= i < |c.vars|
    ensures x in Endpoints(RowTerms(c, i, n)) <==> n > 0 && (x == c.vars[i] || InPrefix(c.vars, n, x))
  {
    if n > 0 {
      RowEndpoints(c, i, n - 1, x);
      var row := RowTerms(c, i, n);
      assert row[..n - 1] == RowTerms(c, i, n - 1);
      InPrefixStep(c.vars, n);
      IndexOfDistinct(c.vars, i);
    }
  }

  lemma {:induction false} RowEdges(c: Clause, i: nat, n: nat, e: Edge)
    requires FullySigned(c) && n <= i < |c.vars|
    ensures e in EdgesOf(RowTerms(c, i, n)) <==> Links(c.vars[i], c.vars, n, e)
  {
    if n > 0 {
      RowEdges(c, i, n - 1, e);
      var row := RowTerms(c, i, n);
      assert row[..n - 1] == RowTerms(c, i, n - 1);
      InPrefixStep(c.vars, n);
      IndexOfDistinct(c.vars, i);
    }
  }

  /** The product of the signs of both ends of `e`, if `e` joins `vars[i]` to one of the first `n` variables. */
  ghost function LinkBias(c: Clause, i: nat, n: nat, e: Edge): int
    requires FullySigned(c) && i < |c.vars|
  {
    if Links(c.vars[i], c.vars, n, e) then SignOf(c, e.lo) * SignOf(c, e.hi) else 0
  }

  /** The product of the signs of both ends of `e`, if both are among the first `n` variables. */
  ghost function BiasUpTo(c: Clause, n: nat, e: Edge): int
    requires FullySigned(c)
  {
    if CoversUpTo(c.vars, n, e) then SignOf(c, e.lo) * SignOf(c, e.hi) else 0
  }

  lemma BiasUpToStep(c: Clause, n: nat, e: Edge)
    requires FullySigned(c) && 0 < n <= |c.vars|
    ensures BiasUpTo(c, n, e) == BiasUpTo(c, n - 1, e) + LinkBias(c, n - 1, n - 1, e)
  {
    var vs := c.vars;
    InPrefixStep(vs, n);
    if CoversUpTo(vs, n - 1, e) {
      assert !Links(vs[n - 1], vs, n - 1, e);
    } else if Links(vs[n - 1], vs, n - 1, e) {
      assert CoversUpTo(vs, n, e);
    } else {
      assert !CoversUpTo(vs, n, e);
    }
  }

  /** Extending the prefix by `vars[n - 1]` adds the entry for positions `i` and `n - 1`. */
  lemma LinkBiasStep(c: Clause, i: nat, n: nat, e: Edge)
    requires FullySigned(c) && 0 < n <= i < |c.vars|
    ensures LinkBias(c, i, n, e)
         == LinkBias(c, i, n - 1, e) + (if EdgeOf(c.vars[i], c.vars[n - 1]) == e then c.signs[i] * c.signs[n - 1] else 0)
  {
    var vs := c.vars;
    InPrefixStep(vs, n);
    IndexOfDistinct(vs, i);
    IndexOfDistinct(vs, n - 1);
    if EdgeOf(vs[i], vs[n - 1]) == e {
      assert !Links(vs[i], vs, n - 1, e);
      assert Links(vs[i], vs, n, e);
    } else {
      assert Links(vs[i], vs, n, e) <==> Links(vs[i], vs, n - 1, e);
    }
  }

  lemma {:induction false} RowBias(c: Clause, i: nat, n: nat, e: Edge)
    requires FullySigned(c) && n <= i < |c.vars|
    ensures TermsBias(RowTerms(c, i, n), e) == LinkBias(c, i, n, e)
  {
    if n > 0 {
      RowBias(c, i, n - 1, e);
      var row := RowTerms(c, i, n);
      assert row[..n - 1] == RowTerms(c, i, n - 1);
      assert row[n - 1] == PairTerm(c, i, n - 1);
      LinkBiasStep(c, i, n, e);
    }
  }

  lemma {:induction false} TermsUpToEndpoints(c: Clause, n: nat, x: int)
    requires FullySigned(c) && n <= |c.vars|
    ensures x in Endpoints(TermsUpTo(c, n)) <==> n >= 2 && InPrefix(c.vars, n, x)
  {
    if n > 0 {
      TermsUpToEndpoints(c, n - 1, x);
      EndpointsConcat(TermsUpTo(c, n - 1), RowTerms(c, n - 1, n - 1));
      RowEndpoints(c, n - 1, n - 1, x);
      InPrefixStep(c.vars, n);
    }
  }

  /** A pair within the first `n` variables lies within the first `n - 1` or links `vs[n - 1]` to them. */
  lemma CoversUpToStep(vs: seq<int>, n: nat, e: Edge)
    requires Distinct(vs) && 0 < n <= |vs|
    ensures CoversUpTo(vs, n, e) <==> CoversUpTo(vs, n - 1, e) || Links(vs[n - 1], vs, n - 1, e)
  {
    InPrefixStep(vs, n);
  }

  /** The pairs named up to position `n` are those named before it and those of row `n - 1`. */
  lemma TermsUpToEdgesStep(c: Clause, n: nat, e: Edge)
    requires FullySigned(c) && 0 < n <= |c.vars|
    ensures e in EdgesOf(TermsUpTo(c, n)) <==> e in EdgesOf(TermsUpTo(c, n - 1)) || e in EdgesOf(RowTerms(c, n - 1, n - 1))
  {
    EdgesConcat(TermsUpTo(c, n - 1), RowTerms(c, n - 1, n - 1));
  }

  lemma {:induction false} TermsUpToEdges(c: Clause, n: nat, e: Edge)
    requires FullySigned(c) && n <= |c.vars|
    ensures e in EdgesOf(TermsUpTo(c, n)) <==> CoversUpTo(c.vars, n, e)
  {
    if n > 0 {
      TermsUpToEdges(c, n - 1, e);
      RowEdges(c, n - 1, n - 1, e);
      CoversUpToStep(c.vars, n, e);
      TermsUpToEdgesStep(c, n, e);
    }
  }

  lemma {:induction false} TermsUpToBias(c: Clause, n: nat, e: Edge)
    requires FullySigned(c) && n <= |c.vars|
    ensures TermsBias(TermsUpTo(c, n), e) == BiasUpTo(c, n, e)
  {
    if n > 0 {
      TermsUpToBias(c, n - 1, e);
      BiasConcat(TermsUpTo(c, n - 1), RowTerms(c, n - 1, n - 1), e);
      RowBias(c, n - 1, n - 1, e);
      BiasUpToStep(c, n, e);
    }
  }

  /** The dictionary of a clause names exactly its variables, when it has two or more. */
  lemma ClauseVariables(c: Clause, x: int)
    requires WellFormed(c)
    ensures x in Endpoints(ClauseTerms(c)) <==> |c.vars| >= 2 && x in c.vars
  {
    if |c.vars| >= 2 {
      TermsUpToEndpoints(c, |c.vars|, x);
    }
  }

  /**
   * The dictionary of a clause names exactly the pairs of its variables, and
   * gives each pair the product of the two signs.
   */
  lemma ClauseInteractions(c: Clause, e: Edge)
    requires WellFormed(c)
    ensures e in EdgesOf(ClauseTerms(c)) <==> Covers(c.vars, e)
    ensures TermsBias(ClauseTerms(c), e) == ClauseBias(c, e)
  {
    if |c.vars| >= 2 {
      TermsUpToEdges(c, |c.vars|, e);
      TermsUpToBias(c, |c.vars|, e);
    } else {
      TwoMembers(c.vars, e.lo, e.hi);
    }
  }

  // ---------------------------------------------------------------------
  // The encoded model, characterised without reference to the fold

  /** A pair has an interaction exactly when some clause holds both its variables. */
  lemma {:induction false} EncodeHasPair(cs: seq<Clause>, e: Edge)
    requires AllWellFormed(cs)
    ensures e in Encode(cs).quadratic <==> exists c :: c in cs && Covers(c.vars, e)
    decreases |cs|
  {
    if cs != [] {
      var init, c := cs[..|cs| - 1], cs[|cs| - 1];
      assert cs == init + [c];
      assert c in cs;
      EncodeHasPair(init, e);
      ClauseInteractions(c, e);
      if exists d :: d in cs && Covers(d.vars, e) {
        var d :| d in cs && Covers(d.vars, e);
        if d != c {
          assert d in init;
        }
      }
    }
  }

  /** The bias of a pair is the sum, over the clauses, of the bias each gives it. */
  lemma {:induction false} EncodeBias(cs: seq<Clause>, e: Edge)
    requires AllWellFormed(cs)
    ensures Get(Encode(cs).quadratic, e) == PairBias(cs, e)
    decreases |cs|
  {
    if cs != [] {
      var init, c := cs[..|cs| - 1], cs[|cs| - 1];
      assert c in cs;
      EncodeBias(init, e);
      ClauseInteractions(c, e);
    }
  }

  /**
   * A pair has an interaction exactly when some clause holds both its
   * variables; its bias is the sum, over those clauses, of the product of the
   * two signs.
   */
  lemma EncodeQuadratic(cs: seq<Clause>, e: Edge)
    requires AllWellFormed(cs)
    ensures e in Encode(cs).quadratic <==> exists c :: c in cs && Covers(c.vars, e)
    ensures Get(Encode(cs).quadratic, e) == PairBias(cs, e)
  {
    EncodeHasPair(cs, e);
    EncodeBias(cs, e);
  }

  /**
   * The model has no offset and all linear biases are 0; its variables are
   * exactly those of the clauses with two or more variables.
   */
  lemma {:induction false} EncodeLinear(cs: seq<Clause>, x: int)
    requires AllWellFormed(cs)
    ensures Encode(cs).offset == 0
    ensures x in Encode(cs).linear <==> exists c :: c in cs && |c.vars| >= 2 && x in c.vars
    ensures x in Encode(cs).linear ==> Encode(cs).linear[x] == 0
    decreases |cs|
  {
    if cs != [] {
      var init, c := cs[..|cs| - 1], cs[|cs| - 1];
      assert cs == init + [c];
      assert c in cs;
      EncodeLinear(init, x);
      ClauseVariables(c, x);
      if exists d :: d in cs && |d.vars| >= 2 && x in d.vars {
        var d :| d in cs && |d.vars| >= 2 && x in d.vars;
        if d != c {
          assert d in init;
        }
      }
    }
  }

  /**
   * The model stays empty exactly when no clause has two variables: in
   * particular, no clauses give a model with no variables and no interactions.
   */
  lemma EncodeEmpty(cs: seq<Clause>)
    requires AllWellFormed(cs)
    ensures Encode(cs) == Empty <==> forall c :: c in cs ==> |c.vars| < 2
  {
    var r := Encode(cs);
    if forall c :: c in cs ==> |c.vars| < 2 {
      forall x
        ensures x !in r.linear
      {
        EncodeLinear(cs, x);
      }
      forall e
        ensures e !in r.quadratic
      {
        EncodeQuadratic(cs, e);
      }
      EncodeLinear(cs, 0);
      assert r.linear == map[] && r.quadratic == map[];
    } else {
      var c :| c in cs && |c.vars| >= 2;
      EncodeLinear(cs, c.vars[0]);
      assert c.vars[0] in r.linear;
    }
  }

  lemma {:induction false} PairBiasConcat(a: seq<Clause>, b: seq<Clause>, e: Edge)
    requires AllWellFormed(a) && AllWellFormed(b)
    ensures AllWellFormed(a + b)
    ensures PairBias(a + b, e) == PairBias(a, e) + PairBias(b, e)
    decreases |b|
  {
    if b == [] {
      assert a + b == a;
    } else {
      var init := b[..|b| - 1];
      assert b[|b| - 1] in b;
      PairBiasConcat(a, init, e);
      assert (a + b)[..|a + b| - 1] == a + init;
    }
  }

  lemma MultisetCancel(init: seq<Clause>, c: Clause, left: seq<Clause>, right: seq<Clause>)
    requires multiset(init + [c]) == multiset(left + [c] + right)
    ensures multiset(init) == multiset(left + right)
  {
    var m, n := multiset(init), multiset(left + right);
    assert m + multiset{c} == n + multiset{c};
    forall x
      ensures m[x] == n[x]
    {
      assert (m + multiset{c})[x] == (n + multiset{c})[x];
    }
  }

  lemma WellFormedPermutation(cs: seq<Clause>, ds: seq<Clause>)
    requires AllWellFormed(cs) && multiset(cs) == multiset(ds)
    ensures AllWellFormed(ds)
  {
    forall d | d in ds
      ensures WellFormed(d)
    {
      assert d in multiset(ds);
    }
  }

  lemma PairBiasSplit(left: seq<Clause>, c: Clause, right: seq<Clause>, e: Edge)
    requires AllWellFormed(left) && WellFormed(c) && AllWellFormed(right)
    ensures AllWellFormed(left + [c] + right) && AllWellFormed(left + right)
    ensures PairBias(left + [c] + right, e) == PairBias(left + right, e) + ClauseBias(c, e)
  {
    assert [c][..0] == [];
    PairBiasConcat(left, right, e);
    PairBiasConcat(left, [c], e);
    PairBiasConcat(left + [c], right, e);
  }

  /** The bias of a pair depends only on the multiset of clauses, not on their order. */
  lemma {:induction false} PairBiasPermutation(cs: seq<Clause>, ds: seq<Clause>, e: Edge)
    requires AllWellFormed(cs) && multiset(cs) == multiset(ds)
    ensures AllWellFormed(ds)
    ensures PairBias(cs, e) == PairBias(ds, e)
    decreases |cs|
  {
    WellFormedPermutation(cs, ds);
    if cs == [] {
      assert |ds| == |multiset(ds)| == 0;
    } else {
      var init, c := cs[..|cs| - 1], cs[|cs| - 1];
      assert cs == init + [c];
      assert c in multiset(ds);
      var i :| 0 <= i < |ds| && ds[i] == c;
      var left, right := ds[..i], ds[i + 1..];
      assert ds == left + [c] + right;
      MultisetCancel(init, c, left, right);
      assert c in cs;
      assert forall d :: d in init ==> d in cs;
      assert forall d :: d in left || d in right ==> d in ds;
      PairBiasPermutation(init, left + right, e);
      PairBiasSplit(left, c, right, e);
    }
  }

  /** Permuted clause lists give the same interactions. */
  lemma SameQuadratic(cs: seq<Clause>, ds: seq<Clause>)
    requires AllWellFormed(cs) && AllWellFormed(ds) && multiset(cs) == multiset(ds)
    ensures Encode(cs).quadratic == Encode(ds).quadratic
  {
    var a, b := Encode(cs).quadratic, Encode(ds).quadratic;
    SameMembers(cs, ds);
    forall e
      ensures (e in a <==> e in b) && Get(a, e) == Get(b, e)
    {
      EncodeQuadratic(cs, e);
      EncodeQuadratic(ds, e);
      PairBiasPermutation(cs, ds, e);
    }
    assert a == b;
  }

  /** Permuted clause lists give the same variables, all with linear bias 0. */
  lemma SameLinear(cs: seq<Clause>, ds: seq<Clause>)
    requires AllWellFormed(cs) && AllWellFormed(ds) && multiset(cs) == multiset(ds)
    ensures Encode(cs).linear == Encode(ds).linear
    ensures forall x :: x in Encode(cs).linear ==> Encode(cs).linear[x] == 0
  {
    var a, b := Encode(cs).linear, Encode(ds).linear;
    SameMembers(cs, ds);
    forall x
      ensures (x in a <==> x in b) && (x in a ==> a[x] == 0 == b[x])
    {
      EncodeLinear(cs, x);
      EncodeLinear(ds, x);
    }
    assert a == b;
  }

  /** Encoding does not depend on the order of the clauses. */
  lemma EncodeOrderIndependent(cs: seq<Clause>, ds: seq<Clause>)
    requires AllWellFormed(cs) && multiset(cs) == multiset(ds)
    ensures AllWellFormed(ds)
    ensures Encode(cs) == Encode(ds)
  {
    WellFormedPermutation(cs, ds);
    SameQuadratic(cs, ds);
    SameLinear(cs, ds);
    EncodeLinear(cs, 0);
    EncodeLinear(ds, 0);
  }

  lemma SameMembers(cs: seq<Clause>, ds: seq<Clause>)
    requires multiset(cs) == multiset(ds)
    ensures forall c :: c in cs <==> c in ds
  {
    forall c
      ensures c in cs <==> c in ds
    {
      assert c in cs <==> c in multiset(cs);
      assert c in ds <==> c in multiset(ds);
    }
  }

  // ---------------------------------------------------------------------
  // The generator: kmc_sat, kmc_sat_to_bqm, nae3sat

  /** `num_clauses` rows of `k` distinct variable indices in `range(num_variables)`. */
  ghost predicate IsClauseTable(a: array2<int>, numVariables: int, numClauses: nat, k: nat)
    reads a
  {
    && a.Length0 == numClauses && a.Length1 == k
    && (forall c, i :: 0 <= c < numClauses && 0 <= i < k ==> 0 <= a[c, i] < numVariables)
    && (forall c, i, j :: 0 <= c < numClauses && 0 <= i < j < k ==> a[c, i] != a[c, j])
  }

  /** `num_clauses` rows of `k` signs, each -1 or +1. */
  ghost predicate IsSignTable(a: array2<int>, numClauses: nat, k: nat)
    reads a
  {
    && a.Length0 == numClauses && a.Length1 == k
    && (forall c, i :: 0 <= c < numClauses && 0 <= i < k ==> a[c, i] == -1 || a[c, i] == 1)
  }

  /**
   * `kmc_sat(num_variables, num_clauses, k)`: a clause table filled row by
   * row with draws without replacement, then a table of random signs. The
   * draws are arbitrary; what is promised is their shape and range.
   */
  method KmcSat(numVariables: int, numClauses: int := 1, k: int := 3) returns (r: Result<(array2<int>, array2<int>)>)
    ensures r.Err? <==> numClauses < 0 || k < 0 || (numClauses > 0 && k > numVariables)
    ensures numClauses < 0 || k < 0 ==> r == Err(NegativeDimensions)
    ensures numClauses > 0 && k > 0 && numVariables <= 0 ==> r == Err(PopulationNotPositive)
    ensures numClauses > 0 && k > numVariables && (k == 0 || numVariables > 0) ==> r == Err(SampleLargerThanPopulation)
    ensures r.Ok? ==> IsClauseTable(r.value.0, numVariables, numClauses, k)
    ensures r.Ok? ==> IsSignTable(r.value.1, numClauses, k)
    ensures r.Ok? ==> fresh(r.value.0) && fresh(r.value.1)
  {
    if numClauses < 0 || k < 0 {
      return Err(NegativeDimensions);
    }
    var clauseVars := new int[numClauses, k]((_, _) => 0);
    for c := 0 to numClauses
      invariant c > 0 ==> k <= numVariables
      invariant forall c', i :: 0 <= c' < c && 0 <= i < k ==> 0 <= clauseVars[c', i] < numVariables
      invariant forall c', i, j :: 0 <= c' < c && 0 <= i < j < k ==> clauseVars[c', i] != clauseVars[c', j]
    {
      var row := ChoiceWithoutReplacement(numVariables, k);
      if row.Err? {
        return Err(row.error);
      }
      forall i | 0 <= i < k {
        clauseVars[c, i] := row.value[i];
      }
    }
    var clauseSigns := ChoiceOfSigns(numClauses, k);
    return Ok((clauseVars, clauseSigns));
  }

  /** Row `r` of a table. */
  function Row(a: array2<int>, r: nat): (s: seq<int>)
    reads a
    requires r < a.Length0
    ensures |s| == a.Length1 && forall i :: 0 <= i < |s| ==> s[i] == a[r, i]
  {
    seq(a.Length1, i reads a requires 0 <= i < a.Length1 => a[r, i])
  }

  function Min(a: int, b: int): int {
    if a < b then a else b
  }

  /** `zip(clause_vars, clause_signs)`: pairs of rows, as many as the shorter table has. */
  ghost function Zipped(clauseVars: array2<int>, clauseSigns: array2<int>): (cs: seq<Clause>)
    reads clauseVars, clauseSigns
    ensures |cs| == Min(clauseVars.Length0, clauseSigns.Length0)
    ensures forall c :: 0 <= c < |cs| ==> cs[c] == Clause(Row(clauseVars, c), Row(clauseSigns, c))
  {
    seq(Min(clauseVars.Length0, clauseSigns.Length0),
        c reads clauseVars, clauseSigns requires 0 <= c < Min(clauseVars.Length0, clauseSigns.Length0) =>
          Clause(Row(clauseVars, c), Row(clauseSigns, c)))
  }

  /** Rows with distinct variables, and signs wherever a pair is formed, zip into well-formed clauses. */
  lemma ZippedWellFormed(clauseVars: array2<int>, clauseSigns: array2<int>)
    requires clauseVars.Length1 <= 1 || clauseVars.Length1 <= clauseSigns.Length1
    requires forall c, i, j :: 0 <= c < Min(clauseVars.Length0, clauseSigns.Length0) && 0 <= i < j < clauseVars.Length1 ==>
               clauseVars[c, i] != clauseVars[c, j]
    ensures AllWellFormed(Zipped(clauseVars, clauseSigns))
  {
    var cs := Zipped(clauseVars, clauseSigns);
    forall d | d in cs
      ensures WellFormed(d)
    {
      var c :| 0 <= c < |cs| && cs[c] == d;
    }
  }

  /** The loop of `kmc_sat_to_bqm`: add the dictionary of each zipped clause to a new model. */
  method AddClauses(clauseVars: array2<int>, clauseSigns: array2<int>) returns (bqm: BinaryQuadraticModel)
    requires AllWellFormed(Zipped(clauseVars, clauseSigns))
    ensures fresh(bqm)
    ensures bqm.Value() == Encode(Zipped(clauseVars, clauseSigns))
  {
    ghost var cs := Zipped(clauseVars, clauseSigns);
    bqm := new BinaryQuadraticModel();
    for c := 0 to Min(clauseVars.Length0, clauseSigns.Length0)
      invariant bqm.Value() == Encode(cs[..c])
    {
      var clause := Clause(Row(clauseVars, c), Row(clauseSigns, c));
      assert clause == cs[c] && clause in cs;
      ClauseTermsShape(clause);
      bqm.AddInteractionsFrom(ClauseTerms(clause));
      assert cs[..c + 1][..c] == cs[..c];
    }
    assert cs[..|cs|] == cs;
  }

  /**
   * `kmc_sat_to_bqm(clause_vars, clause_signs)`: starting from an empty SPIN
   * model, add the interaction dictionary of each zipped clause in turn. The
   * first clause of two or more variables reads `signs[i]` for its last
   * position, which is past the end of a narrower sign row (IndexError).
   */
  method KmcSatToBqm(clauseVars: array2<int>, clauseSigns: array2<int>) returns (r: Result<BinaryQuadraticModel>)
    requires forall c, i, j :: 0 <= c < Min(clauseVars.Length0, clauseSigns.Length0) && 0 <= i < j < clauseVars.Length1 ==>
               clauseVars[c, i] != clauseVars[c, j]
    ensures r.Err? <==>
      Min(clauseVars.Length0, clauseSigns.Length0) > 0 && 2 <= clauseVars.Length1 && clauseSigns.Length1 < clauseVars.Length1
    ensures r.Err? ==> r.error == IndexOutOfBounds
    ensures r.Ok? ==> AllWellFormed(Zipped(clauseVars, clauseSigns))
    ensures r.Ok? ==> fresh(r.value)
    ensures r.Ok? ==> r.value.Value() == Encode(Zipped(clauseVars, clauseSigns))
  {
    if Min(clauseVars.Length0, clauseSigns.Length0) > 0 && 2 <= clauseVars.Length1 && clauseSigns.Length1 < clauseVars.Length1 {
      return Err(IndexOutOfBounds);
    }
    if clauseVars.Length1 <= 1 || clauseVars.Length1 <= clauseSigns.Length1 {
      ZippedWellFormed(clauseVars, clauseSigns);
    } else {
      assert Zipped(clauseVars, clauseSigns) == [];
    }
    var bqm := AddClauses(clauseVars, clauseSigns);
    return Ok(bqm);
  }

  /** Clauses of exactly three distinct variables in `range(numVariables)`, with spin signs. */
  ghost predicate IsNaeInstance(cs: seq<Clause>, numVariables: int) {
    && AllWellFormed(cs)
    && forall c :: c in cs ==>
         && |c.vars| == 3 && |c.signs| == 3
         && (forall i :: 0 <= i < 3 ==> 0 <= c.vars[i] < numVariables)
         && (forall i :: 0 <= i < 3 ==> c.signs[i] == -1 || c.signs[i] == 1)
  }

  /**
   * `nae3sat(num_variables, rho)`, with `m = int(rho * num_variables)` given
   * as an integer: the number of clauses is drawn from `range(m - 1, m + 2)`,
   * then `kmc_sat` is called with three variables per clause and the result
   * is encoded.
   */
  method Nae3sat(numVariables: int, m: int) returns (r: Result<BinaryQuadraticModel>)
    ensures m >= 1 && numVariables >= 3 ==> r.Ok?
    ensures m < -1 ==> r == Err(NegativeDimensions)
    ensures m >= 2 && numVariables <= 0 ==> r == Err(PopulationNotPositive)
    ensures m >= 2 && 0 < numVariables < 3 ==> r == Err(SampleLargerThanPopulation)
    ensures r.Err? ==>
      || (r.error == NegativeDimensions && m <= 0)
      || (r.error == PopulationNotPositive && m >= 0 && numVariables <= 0)
      || (r.error == SampleLargerThanPopulation && m >= 0 && 0 < numVariables < 3)
    ensures r.Ok? ==>
      exists cs :: IsNaeInstance(cs, numVariables) && m - 1 <= |cs| <= m + 1 && r.value.Value() == Encode(cs)
    ensures r.Ok? ==> fresh(r.value)
  {
    var numClauses :| m - 1 <= numClauses <= m + 1;
    var tables := KmcSat(numVariables := numVariables, numClauses := numClauses, k := 3);
    if tables.Err? {
      return Err(tables.error);
    }
    var (clauseVars, clauseSigns) := tables.value;
    var encoded := KmcSatToBqm(clauseVars, clauseSigns);
    assert encoded.Ok?;
    ghost var cs := Zipped(clauseVars, clauseSigns);
    assert IsNaeInstance(cs, numVariables) by {
      forall d | d in cs
        ensures |d.vars| == 3 && |d.signs| == 3
        ensures forall i :: 0 <= i < 3 ==> 0 <= d.vars[i] < numVariables
        ensures forall i :: 0 <= i < 3 ==> d.signs[i] == -1 || d.signs[i] == 1
      {
        var c :| 0 <= c < |cs| && cs[c] == d;
      }
    }
    return Ok(encoded.value);
  }
}

/**
 * What the encoding means. Under a spin assignment s (every s(v) is -1 or
 * +1) the literal at position i of a clause is signs[i] * s(vars[i]). The
 * interactions of a three-variable clause contribute x0*x1 + x0*x2 + x1*x2
 * to the energy of the model: 3 when the three literals are equal and -1
 * otherwise, so a clause is at its lowest energy exactly when it is
 * not-all-equal satisfied, and the model's energy counts the violated clauses.
 * A four-variable clause (k = 4) is at its lowest energy exactly when two of
 * its literals are +1 and two are -1 (2-in-4 SAT).
 */
module Nae3satEnergy {
  import opened DimodBqm
  import opened Nae3satGenerator

  predicate IsSpin(x: int) {
    x == -1 || x == 1
  }

  ghost predicate IsSpinAssignment(spin: int -> int) {
    forall v :: IsSpin(spin(v))
  }

  /** The literal at position `i`: its sign times the spin of its variable. */
  function Literal(c: Clause, spin: int -> int, i: nat): int
    requires i < |c.vars| <= |c.signs|
  {
    c.signs[i] * spin(c.vars[i])
  }

  /** With a spin sign and a spin value, a literal is itself a spin. */
  lemma LiteralIsSpin(c: Clause, spin: int -> int, i: nat)
    requires i < |c.vars| <= |c.signs|
    requires IsSpin(c.signs[i]) && IsSpin(spin(c.vars[i]))
    ensures IsSpin(Literal(c, spin, i))
  {
  }

  /** The four literals of a clause are two +1 and two -1: they sum to 0. */
  predicate TwoInFour(c: Clause, spin: int -> int)
    requires |c.vars| == 4 <= |c.signs|
  {
    Literal(c, spin, 0) + Literal(c, spin, 1) + Literal(c, spin, 2) + Literal(c, spin, 3) == 0
  }

  /** The three literals of a clause are not all equal. */
  predicate NotAllEqual(c: Clause, spin: int -> int)
    requires |c.vars| == 3 <= |c.signs|
  {
    !(Literal(c, spin, 0) == Literal(c, spin, 1) == Literal(c, spin, 2))
  }

  /** The energy contributed by the interactions of one clause. */
  function ClauseEnergy(c: Clause, spin: int -> int): int
    requires Signed(c)
  {
    TermsEnergy(ClauseTerms(c), spin)
  }

  /** The number of clauses whose literals are all equal. */
  function Violated(cs: seq<Clause>, spin: int -> int): (k: nat)
    requires forall c :: c in cs ==> |c.vars| == 3 <= |c.signs|
    ensures k <= |cs|
  {
    if cs == [] then 0
    else
      assert cs[|cs| - 1] in cs;
      Violated(cs[..|cs| - 1], spin) + (if NotAllEqual(cs[|cs| - 1], spin) then 0 else 1)
  }

  /** The entry for positions j < i contributes the product of the two literals. */
  lemma PairTermEnergy(c: Clause, spin: int -> int, i: nat, j: nat)
    requires j < i < |c.vars| <= |c.signs|
    ensures PairTerm(c, i, j).bias * (spin(c.vars[i]) * spin(c.vars[j])) == Literal(c, spin, i) * Literal(c, spin, j)
  {
    var a, b, x, y := c.signs[i], c.signs[j], spin(c.vars[i]), spin(c.vars[j]);
    assert (a * b) * (x * y) == (a * x) * (b * y);
  }

  /** For three spins, the sum of the pairwise products is 3 if they are equal and -1 otherwise. */
  lemma PairwiseProducts(x0: int, x1: int, x2: int)
    requires IsSpin(x0) && IsSpin(x1) && IsSpin(x2)
    ensures x1 * x0 + x2 * x0 + x2 * x1 == if x0 == x1 == x2 then 3 else -1
  {
  }

  /** The entries for the first three positions: (1, 0), (2, 0), (2, 1), in that order. */
  lemma TermsUpToThree(c: Clause)
    requires 3 <= |c.vars| <= |c.signs|
    ensures TermsUpTo(c, 3) == [PairTerm(c, 1, 0), PairTerm(c, 2, 0), PairTerm(c, 2, 1)]
  {
    assert RowTerms(c, 0, 0) == [];
    assert TermsUpTo(c, 1) == [];
    assert TermsUpTo(c, 2) == [PairTerm(c, 1, 0)];
  }

  /** The dictionary of a three-variable clause: entries (1, 0), (2, 0), (2, 1), in that order. */
  lemma ClauseTermsOfThree(c: Clause)
    requires |c.vars| == 3 <= |c.signs|
    ensures ClauseTerms(c) == [PairTerm(c, 1, 0), PairTerm(c, 2, 0), PairTerm(c, 2, 1)]
  {
    TermsUpToThree(c);
  }

  /** The energy of three entries is the sum of their three contributions. */
  lemma TermsEnergyOfThree(t0: Term, t1: Term, t2: Term, spin: int -> int)
    ensures TermsEnergy([t0, t1, t2], spin)
         == t0.bias * (spin(t0.u) * spin(t0.v))
          + t1.bias * (spin(t1.u) * spin(t1.v))
          + t2.bias * (spin(t2.u) * spin(t2.v))
  {
    var e0 := t0.bias * (spin(t0.u) * spin(t0.v));
    var e1 := t1.bias * (spin(t1.u) * spin(t1.v));
    assert [t0, t1, t2][..2] == [t0, t1];
    assert [t0, t1][..1] == [t0];
    assert [t0][..0] == [];
    assert TermsEnergy([t0], spin) == e0;
    assert TermsEnergy([t0, t1], spin) == e0 + e1;
  }

  /** The energy of a three-variable clause: the sum of the pairwise products of its literals. */
  lemma ClauseEnergyOfThree(c: Clause, spin: int -> int)
    requires |c.vars| == 3 <= |c.signs|
    ensures ClauseEnergy(c, spin)
         == Literal(c, spin, 1) * Literal(c, spin, 0)
          + Literal(c, spin, 2) * Literal(c, spin, 0)
          + Literal(c, spin, 2) * Literal(c, spin, 1)
  {
    ClauseTermsOfThree(c);
    TermsEnergyOfThree(PairTerm(c, 1, 0), PairTerm(c, 2, 0), PairTerm(c, 2, 1), spin);
    PairTermEnergy(c, spin, 1, 0);
    PairTermEnergy(c, spin, 2, 0);
    PairTermEnergy(c, spin, 2, 1);
  }

  /**
   * A clause of three variables with spin signs contributes 3 when its three
   * literals are equal and -1 when they are not.
   */
  lemma ClauseEnergyNae(c: Clause, spin: int -> int)
    requires |c.vars| == 3 && |c.signs| == 3
    requires forall i :: 0 <= i < 3 ==> IsSpin(c.signs[i]) && IsSpin(spin(c.vars[i]))
    ensures ClauseEnergy(c, spin) == if NotAllEqual(c, spin) then -1 else 3
  {
    ClauseEnergyOfThree(c, spin);
    assert IsSpin(c.signs[0]) && IsSpin(spin(c.vars[0]));
    assert IsSpin(c.signs[1]) && IsSpin(spin(c.vars[1]));
    assert IsSpin(c.signs[2]) && IsSpin(spin(c.vars[2]));
    PairwiseProducts(Literal(c, spin, 0), Literal(c, spin, 1), Literal(c, spin, 2));
  }

  /**
   * For four spins, the sum of the six pairwise products is -2 when two are +1
   * and two are -1, 6 when all four are equal, and 0 otherwise.
   */
  lemma PairwiseProductsOfFour(x0: int, x1: int, x2: int, x3: int)
    requires IsSpin(x0) && IsSpin(x1) && IsSpin(x2) && IsSpin(x3)
    ensures x1 * x0 + x2 * x0 + x2 * x1 + x3 * x0 + x3 * x1 + x3 * x2
         == if x0 + x1 + x2 + x3 == 0 then -2 else if x0 == x1 == x2 == x3 then 6 else 0
  {
  }

  /**
   * The dictionary of a four-variable clause: the entries of the first three
   * positions, then (3, 0), (3, 1), (3, 2).
   */
  lemma ClauseTermsOfFour(c: Clause)
    requires |c.vars| == 4 <= |c.signs|
    ensures ClauseTerms(c) == TermsUpTo(c, 3) + [PairTerm(c, 3, 0), PairTerm(c, 3, 1), PairTerm(c, 3, 2)]
  {
    var row := RowTerms(c, 3, 3);
    assert row == [PairTerm(c, 3, 0), PairTerm(c, 3, 1), PairTerm(c, 3, 2)];
  }

  /** The energy of a four-variable clause: the sum of the six pairwise products of its literals. */
  lemma ClauseEnergyOfFour(c: Clause, spin: int -> int)
    requires |c.vars| == 4 <= |c.signs|
    ensures ClauseEnergy(c, spin)
         == Literal(c, spin, 1) * Literal(c, spin, 0)
          + Literal(c, spin, 2) * Literal(c, spin, 0)
          + Literal(c, spin, 2) * Literal(c, spin, 1)
          + Literal(c, spin, 3) * Literal(c, spin, 0)
          + Literal(c, spin, 3) * Literal(c, spin, 1)
          + Literal(c, spin, 3) * Literal(c, spin, 2)
  {
    ClauseTermsOfFour(c);
    TermsUpToThree(c);
    EnergyConcat(TermsUpTo(c, 3), [PairTerm(c, 3, 0), PairTerm(c, 3, 1), PairTerm(c, 3, 2)], spin);
    TermsEnergyOfThree(PairTerm(c, 1, 0), PairTerm(c, 2, 0), PairTerm(c, 2, 1), spin);
    TermsEnergyOfThree(PairTerm(c, 3, 0), PairTerm(c, 3, 1), PairTerm(c, 3, 2), spin);
    PairTermEnergy(c, spin, 1, 0);
    PairTermEnergy(c, spin, 2, 0);
    PairTermEnergy(c, spin, 2, 1);
    PairTermEnergy(c, spin, 3, 0);
    PairTermEnergy(c, spin, 3, 1);
    PairTermEnergy(c, spin, 3, 2);
  }

  /**
   * The 2-in-4 reading of a four-variable clause (k = 4): its energy is -2,
   * the least it can take, exactly when two literals are +1 and two are -1;
   * it is 6 when all four literals are equal and 0 otherwise.
   */
  lemma ClauseEnergyTwoInFour(c: Clause, spin: int -> int)
    requires |c.vars| == 4 && |c.signs| == 4
    requires forall i :: 0 <= i < 4 ==> IsSpin(c.signs[i]) && IsSpin(spin(c.vars[i]))
    ensures ClauseEnergy(c, spin)
         == if TwoInFour(c, spin) then -2
            else if Literal(c, spin, 0) == Literal(c, spin, 1) == Literal(c, spin, 2) == Literal(c, spin, 3) then 6
            else 0
    ensures ClauseEnergy(c, spin) >= -2
  {
    ClauseEnergyOfFour(c, spin);
    LiteralIsSpin(c, spin, 0);
    LiteralIsSpin(c, spin, 1);
    LiteralIsSpin(c, spin, 2);
    LiteralIsSpin(c, spin, 3);
    PairwiseProductsOfFour(Literal(c, spin, 0), Literal(c, spin, 1), Literal(c, spin, 2), Literal(c, spin, 3));
  }

  /** The sum of the clause energies. */
  function ClausesEnergy(cs: seq<Clause>, spin: int -> int): int
    requires AllWellFormed(cs)
  {
    if cs == [] then 0
    else
      assert cs[|cs| - 1] in cs;
      ClausesEnergy(cs[..|cs| - 1], spin) + ClauseEnergy(cs[|cs| - 1], spin)
  }

  /** The energy of the encoded model is the sum of the energies of its clauses. */
  lemma {:induction false} EncodeEnergy(cs: seq<Clause>, spin: int -> int)
    requires AllWellFormed(cs)
    ensures Energy(Encode(cs), spin) == ClausesEnergy(cs, spin)
    decreases |cs|
  {
    if cs == [] {
      assert Energy(Empty, spin) == 0;
    } else {
      var init, c := cs[..|cs| - 1], cs[|cs| - 1];
      assert c in cs;
      EncodeEnergy(init, spin);
      ClauseTermsShape(c);
      EnergyWithInteractions(Encode(init), ClauseTerms(c), spin);
    }
  }

  /** Each violated clause costs 4 above the minimum of -1 per clause. */
  lemma {:induction false} ClausesEnergyCounts(cs: seq<Clause>, numVariables: int, spin: int -> int)
    requires IsNaeInstance(cs, numVariables) && IsSpinAssignment(spin)
    ensures ClausesEnergy(cs, spin) == 4 * Violated(cs, spin) - |cs|
    ensures Violated(cs, spin) == 0 <==> forall c :: c in cs ==> NotAllEqual(c, spin)
    decreases |cs|
  {
    if cs != [] {
      var init, c := cs[..|cs| - 1], cs[|cs| - 1];
      assert cs == init + [c];
      assert c in cs;
      ClausesEnergyCounts(init, numVariables, spin);
      assert forall i :: 0 <= i < 3 ==> IsSpin(c.signs[i]) && IsSpin(spin(c.vars[i]));
      ClauseEnergyNae(c, spin);
    }
  }

  /**
   * The ground states of the generated model are the not-all-equal
   * assignments: under any spin assignment the energy is 4 times the number
   * of clauses whose literals are all equal, minus the number of clauses; it
   * is never below -|cs|, and reaches -|cs| exactly when every clause is
   * not-all-equal satisfied.
   */
  lemma NaeGroundState(cs: seq<Clause>, numVariables: int, spin: int -> int)
    requires IsNaeInstance(cs, numVariables) && IsSpinAssignment(spin)
    ensures Energy(Encode(cs), spin) == 4 * Violated(cs, spin) - |cs|
    ensures -|cs| <= Energy(Encode(cs), spin) <= 3 * |cs|
    ensures Energy(Encode(cs), spin) == -|cs| <==> forall c :: c in cs ==> NotAllEqual(c, spin)
  {
    EncodeEnergy(cs, spin);
    ClausesEnergyCounts(cs, numVariables, spin);
  }
}

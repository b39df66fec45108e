/** The constraint programs posted to CP-SAT, and what it means for a valuation to solve one. */
module Constraints {

  datatype Literal = Pos(v: nat) | Neg(v: nat)

  datatype Operand =
    | Const(value: int)
    | Var(v: nat)
    | Weighted(offset: int, terms: seq<(int, nat)>)

  datatype Comparison = Lt | Le | Eq | Ne | Ge | Gt

  /** `onlyIf` is the list of enforcement literals: the constraint binds only when all are true. */
  datatype Constraint =
    | Compare(left: Operand, relation: Comparison, right: Operand, onlyIf: seq<Literal>)
    | BoolAnd(literals: seq<Literal>, onlyIf: seq<Literal>)
    | BoolOr(literals: seq<Literal>, onlyIf: seq<Literal>)
    | Assumption(v: nat)

  datatype CpModel = CpModel(domains: seq<(int, int)>, constraints: seq<Constraint>)

  /** The value of each variable, in order of creation. */
  type Valuation = seq<int>

  function Bit(b: bool): int {
    if b then 1 else 0
  }

  // ---- Scope: constraints mention only variables that exist ----

  predicate LiteralIn(l: Literal, n: nat) {
    l.v < n
  }

  predicate OperandIn(o: Operand, n: nat) {
    match o
    case Const(_) => true
    case Var(v) => v < n
    case Weighted(_, terms) => forall k | 0 <= k < |terms| :: terms[k].1 < n
  }

  predicate ConstraintIn(c: Constraint, n: nat) {
    match c
    case Compare(left, _, right, onlyIf) =>
      OperandIn(left, n) && OperandIn(right, n) && forall k | 0 <= k < |onlyIf| :: LiteralIn(onlyIf[k], n)
    case BoolAnd(literals, onlyIf) =>
      (forall k | 0 <= k < |literals| :: LiteralIn(literals[k], n)) && forall k | 0 <= k < |onlyIf| ::
        LiteralIn(onlyIf[k], n)
    case BoolOr(literals, onlyIf) =>
      (forall k | 0 <= k < |literals| :: LiteralIn(literals[k], n)) && forall k | 0 <= k < |onlyIf| ::
        LiteralIn(onlyIf[k], n)
    case Assumption(v) => v < n
  }

  ghost predicate Scoped(m: CpModel) {
    forall k | 0 <= k < |m.constraints| :: ConstraintIn(m.constraints[k], |m.domains|)
  }

  // ---- Satisfaction ----

  function LiteralTrue(l: Literal, s: Valuation): bool
    requires LiteralIn(l, |s|)
  {
    match l
    case Pos(v) => s[v] == 1
    case Neg(v) => s[v] == 0
  }

  function Total(terms: seq<(int, nat)>, s: Valuation): int
    requires forall k | 0 <= k < |terms| :: terms[k].1 < |s|
  {
    if terms == [] then 0
    else Total(terms[..|terms| - 1], s) + terms[|terms| - 1].0 * s[terms[|terms| - 1].1]
  }

  function ValueOf(o: Operand, s: Valuation): int
    requires OperandIn(o, |s|)
  {
    match o
    case Const(value) => value
    case Var(v) => s[v]
    case Weighted(offset, terms) => offset + Total(terms, s)
  }

  predicate Compared(x: int, relation: Comparison, y: int) {
    match relation
    case Lt => x < y
    case Le => x <= y
    case Eq => x == y
    case Ne => x != y
    case Ge => x >= y
    case Gt => x > y
  }

  predicate AllTrue(literals: seq<Literal>, s: Valuation)
    requires forall k | 0 <= k < |literals| :: LiteralIn(literals[k], |s|)
  {
    forall k | 0 <= k < |literals| :: LiteralTrue(literals[k], s)
  }

  predicate Satisfied(c: Constraint, s: Valuation)
    requires ConstraintIn(c, |s|)
  {
    match c
    case Compare(left, relation, right, onlyIf) =>
      AllTrue(onlyIf, s) ==> Compared(ValueOf(left, s), relation, ValueOf(right, s))
    case BoolAnd(literals, onlyIf) => AllTrue(onlyIf, s) ==> AllTrue(literals, s)
    case BoolOr(literals, onlyIf) =>
      AllTrue(onlyIf, s) ==> exists k :: 0 <= k < |literals| && LiteralTrue(literals[k], s)
    case Assumption(v) => s[v] == 1
  }

  ghost predicate Solves(m: CpModel, s: Valuation) {
    && |s| == |m.domains|
    && (forall v | 0 <= v < |s| :: m.domains[v].0 <= s[v] <= m.domains[v].1)
    && (forall k | 0 <= k < |m.constraints| :: ConstraintIn(m.constraints[k], |s|) && Satisfied(m.constraints[k], s))
  }

  // ---- Growing a model ----

  ghost predicate Grows(m0: CpModel, m1: CpModel) {
    m0.domains <= m1.domains && m0.constraints <= m1.constraints
  }

  /** Longer valuations agree with shorter ones on what the shorter ones cover. */
  lemma {:induction false} TotalPrefix(terms: seq<(int, nat)>, s: Valuation, t: Valuation)
    requires s <= t && forall k | 0 <= k < |terms| :: terms[k].1 < |s|
    ensures Total(terms, s) == Total(terms, t)
  {
    if terms != [] {
      TotalPrefix(terms[..|terms| - 1], s, t);
    }
  }

  lemma OperandPrefix(o: Operand, s: Valuation, t: Valuation)
    requires s <= t && OperandIn(o, |s|)
    ensures OperandIn(o, |t|) && ValueOf(o, s) == ValueOf(o, t)
  {
    if o.Weighted? {
      TotalPrefix(o.terms, s, t);
    }
  }

  lemma LiteralsPrefix(literals: seq<Literal>, s: Valuation, t: Valuation)
    requires s <= t && forall k | 0 <= k < |literals| :: LiteralIn(literals[k], |s|)
    ensures forall k | 0 <= k < |literals| ::
      LiteralIn(literals[k], |t|) && LiteralTrue(literals[k], s) == LiteralTrue(literals[k], t)
    ensures AllTrue(literals, s) == AllTrue(literals, t)
  {
  }

  lemma ConstraintPrefix(c: Constraint, s: Valuation, t: Valuation)
    requires s <= t && ConstraintIn(c, |s|)
    ensures ConstraintIn(c, |t|) && Satisfied(c, s) == Satisfied(c, t)
  {
    match c
    case Compare(left, _, right, onlyIf) =>
      OperandPrefix(left, s, t);
      OperandPrefix(right, s, t);
      LiteralsPrefix(onlyIf, s, t);
    case BoolAnd(literals, onlyIf) =>
      LiteralsPrefix(literals, s, t);
      LiteralsPrefix(onlyIf, s, t);
    case BoolOr(literals, onlyIf) =>
      LiteralsPrefix(literals, s, t);
      LiteralsPrefix(onlyIf, s, t);
    case Assumption(_) =>
  }

  /** A solution of a grown model, cut back, solves the original. */
  lemma SolutionCut(m0: CpModel, m1: CpModel, t: Valuation)
    requires Grows(m0, m1) && Scoped(m0) && Solves(m1, t)
    ensures Solves(m0, t[..|m0.domains|]) && t[..|m0.domains|] <= t
  {
    var s := t[..|m0.domains|];
    forall k | 0 <= k < |m0.constraints|
      ensures ConstraintIn(m0.constraints[k], |s|) && Satisfied(m0.constraints[k], s)
    {
      assert m0.constraints[k] == m1.constraints[k];
      ConstraintPrefix(m0.constraints[k], s, t);
    }
    forall v | 0 <= v < |s| ensures m0.domains[v].0 <= s[v] <= m0.domains[v].1 {
      assert m0.domains[v] == m1.domains[v];
    }
  }

  /** `m` with some more variables and constraints. */
  function Grown(m: CpModel, added: seq<(int, int)>, constraints: seq<Constraint>): CpModel {
    CpModel(m.domains + added, m.constraints + constraints)
  }

  predicate AllIn(constraints: seq<Constraint>, n: nat) {
    forall k | 0 <= k < |constraints| :: ConstraintIn(constraints[k], n)
  }

  predicate AllSatisfied(constraints: seq<Constraint>, s: Valuation)
    requires AllIn(constraints, |s|)
  {
    forall k | 0 <= k < |constraints| :: Satisfied(constraints[k], s)
  }

  predicate InDomains(domains: seq<(int, int)>, xs: seq<int>) {
    |xs| == |domains| && forall k | 0 <= k < |xs| :: domains[k].0 <= xs[k] <= domains[k].1
  }

  lemma ScopeWidens(c: Constraint, n: nat, n': nat)
    requires ConstraintIn(c, n) && n <= n'
    ensures ConstraintIn(c, n')
  {
  }

  lemma GrownScoped(m: CpModel, added: seq<(int, int)>, constraints: seq<Constraint>)
    requires Scoped(m) && AllIn(constraints, |m.domains| + |added|)
    ensures Scoped(Grown(m, added, constraints)) && Grows(m, Grown(m, added, constraints))
  {
    var m' := Grown(m, added, constraints);
    forall k | 0 <= k < |m'.constraints| ensures ConstraintIn(m'.constraints[k], |m'.domains|) {
      if k < |m.constraints| {
        ScopeWidens(m.constraints[k], |m.domains|, |m'.domains|);
      } else {
        assert m'.constraints[k] == constraints[k - |m.constraints|];
      }
    }
  }

  /** Old solutions with values for the new variables that satisfy the new constraints. */
  lemma GrownExtends(m: CpModel, added: seq<(int, int)>, constraints: seq<Constraint>, s: Valuation, xs: seq<int>)
    requires Scoped(m) && AllIn(constraints, |m.domains| + |added|)
    requires Solves(m, s) && InDomains(added, xs) && AllSatisfied(constraints, s + xs)
    ensures Solves(Grown(m, added, constraints), s + xs)
  {
    var m', t := Grown(m, added, constraints), s + xs;
    forall k | 0 <= k < |m'.constraints|
      ensures ConstraintIn(m'.constraints[k], |t|) && Satisfied(m'.constraints[k], t)
    {
      if k < |m.constraints| {
        ConstraintPrefix(m.constraints[k], s, t);
      } else {
        assert m'.constraints[k] == constraints[k - |m.constraints|];
      }
    }
  }

  /** What a solution of a grown model tells. */
  lemma GrownMeans(m: CpModel, added: seq<(int, int)>, constraints: seq<Constraint>, t: Valuation)
    requires Scoped(m) && AllIn(constraints, |m.domains| + |added|)
    requires Solves(Grown(m, added, constraints), t)
    ensures Solves(m, t[..|m.domains|]) && t[..|m.domains|] <= t && t == t[..|m.domains|] + t[|m.domains|..]
    ensures InDomains(added, t[|m.domains|..]) && |t| == |m.domains| + |added| && AllSatisfied(constraints, t)
  {
    var m' := Grown(m, added, constraints);
    SolutionCut(m, m', t);
    forall k | 0 <= k < |added| ensures added[k].0 <= t[|m.domains|..][k] <= added[k].1 {
      assert m'.domains[|m.domains| + k] == added[k];
    }
    forall k | 0 <= k < |constraints| ensures Satisfied(constraints[k], t) {
      assert m'.constraints[|m.constraints| + k] == constraints[k];
    }
  }

  // ---- Meaning-preserving growth ----

  /** Every solution of `m0` extends to one of `m1`; nothing was ruled out. */
  ghost predicate Conservative(m0: CpModel, m1: CpModel) {
    && Grows(m0, m1) && Scoped(m0) && Scoped(m1)
    && (forall s {:trigger Solves(m0, s)} | Solves(m0, s) :: Extends(m1, s))
  }

  ghost predicate Extends(m1: CpModel, s: Valuation) {
    exists t :: s <= t && Solves(m1, t)
  }

  lemma ConservativeSelf(m: CpModel)
    requires Scoped(m)
    ensures Conservative(m, m)
  {
    forall s | Solves(m, s) ensures Extends(m, s) {
      assert s <= s;
    }
  }

  lemma ConservativeTransitive(m0: CpModel, m1: CpModel, m2: CpModel)
    requires Conservative(m0, m1) && Conservative(m1, m2)
    ensures Conservative(m0, m2)
  {
    forall s | Solves(m0, s) ensures Extends(m2, s) {
      assert Extends(m1, s);
      var t :| s <= t && Solves(m1, t);
      assert Extends(m2, t);
      var u :| t <= u && Solves(m2, u);
      assert s <= u;
    }
  }

  /** A Boolean reserved before other growth can be given either value in advance. */
  lemma ReserveExtends(m0: CpModel, m1: CpModel, m2: CpModel, s: Valuation, b: bool) returns (u: Valuation)
    requires Scoped(m0) && m1 == Grown(m0, [(0, 1)], []) && Conservative(m1, m2) && Solves(m0, s)
    ensures s <= u && Solves(m2, u) && u[|m0.domains|] == Bit(b)
  {
    GrownExtends(m0, [(0, 1)], [], s, [Bit(b)]);
    var s1 := s + [Bit(b)];
    assert Extends(m2, s1);
    u :| s1 <= u && Solves(m2, u);
    assert u[|m0.domains|] == s1[|m0.domains|];
  }

  lemma ReserveGrows(m0: CpModel, m1: CpModel, m2: CpModel)
    requires Scoped(m0) && m1 == Grown(m0, [(0, 1)], []) && Conservative(m1, m2)
    ensures Grows(m0, m2) && |m0.domains| < |m2.domains| && m2.domains[|m0.domains|] == (0, 1)
  {
    assert m2.domains[|m0.domains|] == m1.domains[|m0.domains|];
  }

  /** Constraints without new variables filter the solutions. */
  lemma PostAll(m: CpModel, constraints: seq<Constraint>, u: Valuation)
    requires Scoped(m) && AllIn(constraints, |m.domains|)
    ensures Scoped(Grown(m, [], constraints)) && Grows(m, Grown(m, [], constraints))
    ensures Solves(Grown(m, [], constraints), u) <==> Solves(m, u) && AllSatisfied(constraints, u)
  {
    GrownScoped(m, [], constraints);
    assert u + [] == u;
    if Solves(m, u) && AllSatisfied(constraints, u) {
      GrownExtends(m, [], constraints, u, []);
    }
    if Solves(Grown(m, [], constraints), u) {
      GrownMeans(m, [], constraints, u);
      assert u[..|m.domains|] == u;
    }
  }
}

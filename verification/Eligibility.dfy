/** Three-valued eligibility of a student for a course, and what its verdicts promise. */
module Eligibility {
  import opened Ast

  datatype Evidence = Evidence(
    completed: set<string>, inTerm: set<string>, earnedCredits: int, permissions: set<string>,
    placements: set<string>, grades: map<string, string>)

  datatype Verdict = Unsatisfied | Unknown | Satisfied

  function Supplied(ev: Evidence, kind: PredicateKind): set<string> {
    if kind == Permission then ev.permissions else ev.placements
  }

  predicate GradeMet(ev: Evidence, course: string, grade: string) {
    course in ev.completed
    && GradePoints(if course in ev.grades then ev.grades[course] else "F") >= GradePoints(grade)
  }

  function Evaluate(e: Expr, ev: Evidence): Verdict {
    match e
    case CourseRef(code) => if code in ev.completed || code in ev.inTerm then Satisfied else Unsatisfied
    case GradeAtLeast(course, grade) => if GradeMet(ev, course, grade) then Satisfied else Unsatisfied
    case CreditsAtLeast(credits) => if ev.earnedCredits >= credits then Satisfied else Unsatisfied
    case Predicate(kind, value) => if value in Supplied(ev, kind) then Satisfied else Unknown
    case AllOf(items) =>
      if exists i :: 0 <= i < |items| && Evaluate(items[i], ev) == Unsatisfied then Unsatisfied
      else if exists i :: 0 <= i < |items| && Evaluate(items[i], ev) == Unknown then Unknown
      else Satisfied
    case AnyOf(items) =>
      if exists i :: 0 <= i < |items| && Evaluate(items[i], ev) == Satisfied then Satisfied
      else if forall i | 0 <= i < |items| :: Evaluate(items[i], ev) == Unsatisfied then Unsatisfied
      else Unknown
    case CoRequisite(items) =>
      if exists i :: 0 <= i < |items| && Evaluate(items[i], ev) == Unsatisfied then Unsatisfied
      else if exists i :: 0 <= i < |items| && Evaluate(items[i], ev) == Unknown then Unknown
      else Satisfied
  }

  // ---- Two-valued reading: what the expression asks for ----

  predicate Holds(e: Expr, ev: Evidence) {
    match e
    case CourseRef(code) => code in ev.completed + ev.inTerm
    case GradeAtLeast(course, grade) => GradeMet(ev, course, grade)
    case CreditsAtLeast(credits) => ev.earnedCredits >= credits
    case Predicate(kind, value) => value in Supplied(ev, kind)
    case AllOf(items) => forall i | 0 <= i < |items| :: Holds(items[i], ev)
    case AnyOf(items) => exists i :: 0 <= i < |items| && Holds(items[i], ev)
    case CoRequisite(items) => forall i | 0 <= i < |items| :: Holds(items[i], ev)
  }

  function Granting(ev: Evidence, permissions: set<string>, placements: set<string>): Evidence {
    ev.(permissions := ev.permissions + permissions, placements := ev.placements + placements)
  }

  /** The predicate values of one kind that an expression asks about. */
  function Asked(e: Expr, kind: PredicateKind): set<string> {
    match e
    case Predicate(k, value) => if k == kind then {value} else {}
    case AllOf(items) => AskedByAll(items, kind)
    case AnyOf(items) => AskedByAll(items, kind)
    case CoRequisite(items) => AskedByAll(items, kind)
    case _ => {}
  }

  function AskedByAll(items: seq<Expr>, kind: PredicateKind): (r: set<string>)
    ensures forall i | 0 <= i < |items| :: Asked(items[i], kind) <= r
  {
    if items == [] then {} else Asked(items[0], kind) + AskedByAll(items[1..], kind)
  }

  lemma {:induction false} SatisfiedMeansHolds(e: Expr, ev: Evidence)
    ensures Evaluate(e, ev) == Satisfied <==> Holds(e, ev)
  {
    if e.AllOf? || e.AnyOf? || e.CoRequisite? {
      forall i | 0 <= i < |e.items| ensures Evaluate(e.items[i], ev) == Satisfied <==> Holds(e.items[i], ev) {
        SatisfiedMeansHolds(e.items[i], ev);
      }
    }
  }

  /** An unsatisfied expression stays false however many predicates are granted. */
  lemma {:induction false} UnsatisfiedIsFinal(e: Expr, ev: Evidence, permissions: set<string>, placements: set<string>)
    requires Evaluate(e, ev) == Unsatisfied
    ensures !Holds(e, Granting(ev, permissions, placements))
  {
    if e.AnyOf? {
      forall i | 0 <= i < |e.items| ensures !Holds(e.items[i], Granting(ev, permissions, placements)) {
        UnsatisfiedIsFinal(e.items[i], ev, permissions, placements);
      }
    } else if e.AllOf? || e.CoRequisite? {
      var i :| 0 <= i < |e.items| && Evaluate(e.items[i], ev) == Unsatisfied;
      UnsatisfiedIsFinal(e.items[i], ev, permissions, placements);
    }
  }

  /** Granting everything asked for makes any other expression true. */
  lemma {:induction false} OtherwisePossible(e: Expr, ev: Evidence, permissions: set<string>, placements: set<string>)
    requires Evaluate(e, ev) != Unsatisfied
    requires Asked(e, Permission) <= permissions && Asked(e, Placement) <= placements
    ensures Holds(e, Granting(ev, permissions, placements))
  {
    if e.AllOf? || e.CoRequisite? {
      forall i | 0 <= i < |e.items| ensures Holds(e.items[i], Granting(ev, permissions, placements)) {
        OtherwisePossible(e.items[i], ev, permissions, placements);
      }
    } else if e.AnyOf? {
      var i :| 0 <= i < |e.items| && Evaluate(e.items[i], ev) != Unsatisfied;
      OtherwisePossible(e.items[i], ev, permissions, placements);
    }
  }

  ghost predicate CouldHold(e: Expr, ev: Evidence) {
    exists permissions, placements :: Holds(e, Granting(ev, permissions, placements))
  }

  /** The verdicts say exactly what they claim about permissions and placements yet to be supplied. */
  lemma VerdictsAreHonest(e: Expr, ev: Evidence)
    ensures Evaluate(e, ev) == Satisfied <==> Holds(e, ev)
    ensures Evaluate(e, ev) == Unsatisfied <==> !CouldHold(e, ev)
    ensures Evaluate(e, ev) == Unknown <==> !Holds(e, ev) && CouldHold(e, ev)
  {
    SatisfiedMeansHolds(e, ev);
    if Evaluate(e, ev) == Unsatisfied {
      forall permissions, placements ensures !Holds(e, Granting(ev, permissions, placements)) {
        UnsatisfiedIsFinal(e, ev, permissions, placements);
      }
    } else {
      OtherwisePossible(e, ev, Asked(e, Permission), Asked(e, Placement));
    }
  }

  predicate AtLeast(v: Verdict, w: Verdict) {
    v == w || v == Satisfied || w == Unsatisfied
  }

  function PointsOf(ev: Evidence, course: string): nat {
    GradePoints(if course in ev.grades then ev.grades[course] else "F")
  }

  /** Nothing is withdrawn, and completed courses stay completed with no fewer grade points. */
  predicate MoreEvidence(ev: Evidence, ev': Evidence) {
    && ev.completed <= ev'.completed && ev.inTerm <= ev'.completed + ev'.inTerm && ev.earnedCredits <= ev'.earnedCredits
    && ev.permissions <= ev'.permissions && ev.placements <= ev'.placements
    && forall course | course in ev.completed :: PointsOf(ev, course) <= PointsOf(ev', course)
  }

  /** More evidence never lowers a verdict. */
  lemma {:induction false} EvidenceNeverLowers(e: Expr, ev: Evidence, ev': Evidence)
    requires MoreEvidence(ev, ev')
    ensures AtLeast(Evaluate(e, ev'), Evaluate(e, ev))
  {
    if e.AllOf? || e.AnyOf? || e.CoRequisite? {
      forall i | 0 <= i < |e.items| ensures AtLeast(Evaluate(e.items[i], ev'), Evaluate(e.items[i], ev)) {
        EvidenceNeverLowers(e.items[i], ev, ev');
      }
    }
  }

  ghost predicate NeverLowers(ev: Evidence, ev': Evidence) {
    forall e :: AtLeast(Evaluate(e, ev'), Evaluate(e, ev))
  }

  /** No expression's verdict falls exactly if the evidence grows, completed courses keeping their grade points. */
  lemma LowersNothingIffMore(ev: Evidence, ev': Evidence)
    ensures NeverLowers(ev, ev') <==> MoreEvidence(ev, ev')
  {
    if MoreEvidence(ev, ev') {
      forall e ensures AtLeast(Evaluate(e, ev'), Evaluate(e, ev)) {
        EvidenceNeverLowers(e, ev, ev');
      }
    }
    if NeverLowers(ev, ev') {
      forall course | course in ev.completed
        ensures course in ev'.completed && PointsOf(ev, course) <= PointsOf(ev', course)
      {
        var grade := if course in ev.grades then ev.grades[course] else "F";
        assert AtLeast(Evaluate(GradeAtLeast(course, grade), ev'), Evaluate(GradeAtLeast(course, grade), ev));
      }
      forall course | course in ev.inTerm ensures course in ev'.completed + ev'.inTerm {
        assert AtLeast(Evaluate(CourseRef(course), ev'), Evaluate(CourseRef(course), ev));
      }
      var credits := CreditsAtLeast(ev.earnedCredits);
      assert AtLeast(Evaluate(credits, ev'), Evaluate(credits, ev));
      forall value | value in ev.permissions ensures value in ev'.permissions {
        assert AtLeast(Evaluate(Predicate(Permission, value), ev'), Evaluate(Predicate(Permission, value), ev));
      }
      forall value | value in ev.placements ensures value in ev'.placements {
        assert AtLeast(Evaluate(Predicate(Placement, value), ev'), Evaluate(Predicate(Placement, value), ev));
      }
    }
  }

  /** A lowered grade can lower a verdict. */
  lemma GradesMayLower()
    ensures var ev := Evidence({"CS101"}, {}, 0, {}, {}, map["CS101" := "A"]);
            var e := GradeAtLeast("CS101", "B");
            Evaluate(e, ev) == Satisfied && Evaluate(e, ev.(grades := map["CS101" := "C"])) == Unsatisfied
  {
    assert GradePoints("A") == 4000 && GradePoints("B") == 3000 && GradePoints("C") == 2000;
  }
}

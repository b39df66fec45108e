/** Degree audit: greedy allocation of completed and proposed courses to requirement groups. */
module Audit {
  import opened Ordering
  import opened Sums
  import opened PlanModel

  datatype State = Unknown | Satisfied | Pending | Unsatisfied

  datatype AuditRequirement = AuditRequirement(
    groupId: string, title: string, state: State, satisfied: seq<string>, pending: seq<string>, missingCourses: int,
    missingCredits: int)
  {
    /** The codes counted towards the requirement. */
    function Selected(): seq<string> {
      satisfied + pending
    }
  }

  datatype DegreeAudit = DegreeAudit(
    requirements: seq<AuditRequirement>, earnedCredits: int, proposedCredits: int, unknownRules: seq<string>)

  predicate Complete(audit: DegreeAudit) {
    (forall i | 0 <= i < |audit.requirements| :: audit.requirements[i].state == Satisfied) && audit.unknownRules == []
  }

  /** `xs[:stop]`: a negative stop counts from the end. */
  function SliceTo<T>(xs: seq<T>, stop: int): (r: seq<T>)
    ensures r <= xs
    ensures |r| == if stop >= |xs| then |xs| else if stop >= 0 then stop else if |xs| + stop >= 0 then |xs| + stop
      else 0
  {
    if stop >= |xs| then xs
    else if stop >= 0 then xs[..stop]
    else if |xs| + stop >= 0 then xs[..|xs| + stop]
    else []
  }

  function Max(a: int, b: int): int {
    if a >= b then a else b
  }

  function Min(a: int, b: int): int {
    if a <= b then a else b
  }

  function CreditOf(credits: map<string, int>, code: string): int {
    if code in credits then credits[code] else 0
  }

  function CreditSum(credits: map<string, int>, codes: seq<string>): int {
    if codes == [] then 0 else CreditSum(credits, codes[..|codes| - 1]) + CreditOf(credits, codes[|codes| - 1])
  }

  function UnknownRequirement(group: RequirementGroup): AuditRequirement {
    AuditRequirement(group.id, group.title, Unknown, [], [], group.minCourses, group.minCredits)
  }

  /** The first courses by code that the group lists and no exclusive group has spent. */
  function FirstUnspent(available: set<string>, group: RequirementGroup, used: set<string>, slots: int): seq<string> {
    SliceTo(SortedSet(available * group.courseCodes - used), slots)
  }

  /** The audit of one group when the codes in `used` are already spent. */
  function AuditGroup(
    group: RequirementGroup, used: set<string>, completed: set<string>, proposed: set<string>,
    credits: map<string, int>): AuditRequirement
  {
    if group.unknown then UnknownRequirement(group) else
    var satisfied := FirstUnspent(completed, group, used, group.minCourses);
    var pending := FirstUnspent(proposed, group, used, Max(0, group.minCourses - |satisfied|));
    var missingCourses := Max(0, group.minCourses - |satisfied + pending|);
    var missingCredits := Max(0, group.minCredits - CreditSum(credits, satisfied) - CreditSum(credits, pending));
    var state :=
      if missingCourses != 0 || missingCredits != 0 then if pending != [] then Pending else Unsatisfied
      else if pending != [] && satisfied == [] then Pending
      else Satisfied;
    AuditRequirement(group.id, group.title, state, satisfied, pending, missingCourses, missingCredits)
  }

  /** What one group takes away from the later ones. */
  function SpentBy(group: RequirementGroup, entry: AuditRequirement): set<string> {
    if Exclusive(group) then SetOf(entry.Selected()) else {}
  }

  /** The codes spent by the exclusive groups among the first `n`. */
  ghost function Spent(groups: seq<RequirementGroup>, results: seq<AuditRequirement>, n: nat): set<string>
    requires n <= |groups| && n <= |results|
  {
    if n == 0 then {} else Spent(groups, results, n - 1) + SpentBy(groups[n - 1], results[n - 1])
  }

  lemma {:induction false} SpentMeans(groups: seq<RequirementGroup>, results: seq<AuditRequirement>, n: nat)
    requires n <= |groups| && n <= |results|
    ensures forall code :: code in Spent(groups, results, n) <==>
      exists i :: 0 <= i < n && code in SpentBy(groups[i], results[i])
  {
    if n > 0 {
      SpentMeans(groups, results, n - 1);
    }
  }

  lemma {:induction false} SpentOfPrefix(
    groups: seq<RequirementGroup>, results: seq<AuditRequirement>, more: seq<AuditRequirement>, n: nat)
    requires n <= |groups| && n <= |results| && results <= more
    ensures Spent(groups, more, n) == Spent(groups, results, n)
  {
    if n > 0 {
      SpentOfPrefix(groups, results, more, n - 1);
      assert more[n - 1] == results[n - 1];
    }
  }

  ghost predicate Audited(
    groups: seq<RequirementGroup>, results: seq<AuditRequirement>, completed: set<string>, proposed: set<string>,
    credits: map<string, int>)
  {
    && |results| == |groups|
    && forall i {:trigger results[i]} | 0 <= i < |groups| ::
      results[i] == AuditGroup(groups[i], Spent(groups, results, i), completed, proposed, credits)
  }

  method AuditDegree(
    groups: seq<RequirementGroup>, completed: set<string>, completedCredits: int,
    proposedByTerm: map<int, seq<string>>, credits: map<string, int>)
    returns (audit: DegreeAudit)
    ensures Audited(groups, audit.requirements, completed, Proposed(proposedByTerm), credits)
    ensures audit.earnedCredits == completedCredits
    ensures audit.proposedCredits
      == SumOver(Proposed(proposedByTerm), (code: string) => if code in credits then credits[code] else 0)
    ensures forall title :: title in audit.unknownRules <==>
      exists i :: 0 <= i < |groups| && groups[i].unknown && groups[i].title == title
  {
    hide AuditedUpTo, Spent, AuditGroup;
    var proposed := Proposed(proposedByTerm);
    var allocations: map<string, string> := map[];
    var result: seq<AuditRequirement>, unknown: seq<string> := [], [];
    AuditedStart(groups, completed, proposed, credits);
    assert allocations.Keys == {};
    for i := 0 to |groups|
      invariant AuditedUpTo(groups, result, completed, proposed, credits, i, allocations.Keys, unknown)
    {
      var group := groups[i];
      var entry := AuditGroup(group, allocations.Keys, completed, proposed, credits);
      AuditedStep(groups, result, completed, proposed, credits, i, allocations.Keys, unknown, entry);
      assert allocations.Keys + {} == allocations.Keys;
      if group.unknown {
        unknown := unknown + [group.title];
      } else if !group.allowDoubleCounting {
        allocations := Allocate(allocations, entry.Selected(), group.id);
      }
      result := result + [entry];
    }
    AuditedEnd(groups, result, completed, proposed, credits, allocations.Keys, unknown);
    var total := ProposedCredits(proposed, credits);
    audit := DegreeAudit(result, completedCredits, total, unknown);
  }

  // ---- The loop of the audit ----

  /** The first `n` groups are audited, their spent codes are `used` and their unresolved titles `unknown`. */
  ghost predicate AuditedUpTo(
    groups: seq<RequirementGroup>, results: seq<AuditRequirement>, completed: set<string>, proposed: set<string>,
    credits: map<string, int>, n: nat, used: set<string>, unknown: seq<string>)
  {
    && |results| == n <= |groups| && used == Spent(groups, results, n)
    && (forall i {:trigger results[i]} | 0 <= i < n ::
      results[i] == AuditGroup(groups[i], Spent(groups, results, i), completed, proposed, credits))
    && (forall title :: title in unknown <==> exists k :: 0 <= k < n && groups[k].unknown && groups[k].title == title)
  }

  lemma AuditedStart(
    groups: seq<RequirementGroup>, completed: set<string>, proposed: set<string>, credits: map<string, int>)
    ensures AuditedUpTo(groups, [], completed, proposed, credits, 0, {}, [])
  {
  }

  lemma AuditedStep(
    groups: seq<RequirementGroup>, results: seq<AuditRequirement>, completed: set<string>, proposed: set<string>,
    credits: map<string, int>, n: nat, used: set<string>, unknown: seq<string>, entry: AuditRequirement)
    requires AuditedUpTo(groups, results, completed, proposed, credits, n, used, unknown) && n < |groups|
    requires entry == AuditGroup(groups[n], used, completed, proposed, credits)
    ensures AuditedUpTo(groups, results + [entry], completed, proposed, credits, n + 1,
      used + SpentBy(groups[n], entry),
      if groups[n].unknown then unknown + [groups[n].title] else unknown)
  {
    hide AuditGroup, SpentBy;
    var more := results + [entry];
    forall i {:trigger more[i]} | 0 <= i < n + 1
      ensures more[i] == AuditGroup(groups[i], Spent(groups, more, i), completed, proposed, credits)
    {
      SpentOfPrefix(groups, results, more, i);
      if i < n {
        assert more[i] == results[i];
      }
    }
    SpentOfPrefix(groups, results, more, n);
  }

  lemma AuditedEnd(
    groups: seq<RequirementGroup>, results: seq<AuditRequirement>, completed: set<string>, proposed: set<string>,
    credits: map<string, int>, used: set<string>, unknown: seq<string>)
    requires AuditedUpTo(groups, results, completed, proposed, credits, |groups|, used, unknown)
    ensures Audited(groups, results, completed, proposed, credits)
    ensures forall title :: title in unknown <==>
      exists i :: 0 <= i < |groups| && groups[i].unknown && groups[i].title == title
  {
  }

  /** All courses some term of the plan proposes. */
  function Proposed(proposedByTerm: map<int, seq<string>>): (r: set<string>)
    ensures forall code :: code in r <==> exists t :: t in proposedByTerm && code in proposedByTerm[t]
  {
    set t, code | t in proposedByTerm && code in proposedByTerm[t] :: code
  }

  function Allocate(allocations: map<string, string>, codes: seq<string>, id: string): (r: map<string, string>)
    ensures r.Keys == allocations.Keys + SetOf(codes)
  {
    allocations + map code | code in codes :: id
  }

  method ProposedCredits(proposed: set<string>, credits: map<string, int>) returns (total: int)
    ensures total == SumOver(proposed, (code: string) => if code in credits then credits[code] else 0)
  {
    var todo := proposed;
    total := 0;
    ghost var value := (code: string) => if code in credits then credits[code] else 0;
    while |todo| > 0
      invariant todo <= proposed && total + SumOver(todo, value) == SumOver(proposed, value)
      decreases |todo|
    {
      var code :| code in todo;
      SumRemove(todo, value, code);
      total := total + CreditOf(credits, code);
      todo := todo - {code};
    }
  }

  // ---- What an audit guarantees ----

  lemma FirstUnspentMeans(available: set<string>, group: RequirementGroup, used: set<string>, slots: int)
    ensures var codes := FirstUnspent(available, group, used, slots);
      && Distinct(codes)
      && (forall code | code in codes :: code in available && code in group.courseCodes && code !in used)
      && (slots >= 0 ==> |codes| == Min(slots, |available * group.courseCodes - used|))
  {
    var eligible := SortedSet(available * group.courseCodes - used);
    SortedSetSorts(available * group.courseCodes - used);
    hide SortedSet;
    var codes := SliceTo(eligible, slots);
    assert forall i | 0 <= i < |codes| :: codes[i] == eligible[i] && eligible[i] in eligible;
  }

  /** A group takes only listed, available and unspent courses, and no more than its minimum. */
  lemma SelectionIsSound(
    group: RequirementGroup, used: set<string>, completed: set<string>, proposed: set<string>,
    credits: map<string, int>)
    ensures var entry := AuditGroup(group, used, completed, proposed, credits);
      && (forall code | code in entry.satisfied :: code in completed && code in group.courseCodes && code !in used)
      && (forall code | code in entry.pending :: code in proposed && code in group.courseCodes && code !in used)
      && (group.minCourses >= 0 ==> |entry.Selected()| <= group.minCourses)
      && (completed !! proposed ==> Distinct(entry.Selected()))
  {
    hide FirstUnspent;
    FirstUnspentMeans(completed, group, used, group.minCourses);
    var entry := AuditGroup(group, used, completed, proposed, credits);
    FirstUnspentMeans(proposed, group, used, Max(0, group.minCourses - |entry.satisfied|));
    if completed !! proposed {
      DistinctConcatenation(entry.satisfied, entry.pending);
    }
  }

  lemma DistinctConcatenation<T>(xs: seq<T>, ys: seq<T>)
    requires Distinct(xs) && Distinct(ys) && forall x | x in xs :: x !in ys
    ensures Distinct(xs + ys)
  {
    var all := xs + ys;
    forall i, j | 0 <= i < j < |all| ensures all[i] != all[j] {
      assert i < |xs| ==> all[i] in xs;
      assert j >= |xs| ==> all[j] in ys;
    }
  }

  /** A course taken by an exclusive group is never used again, by an exclusive group or any later one. */
  lemma NoDoubleSpend(
    groups: seq<RequirementGroup>, results: seq<AuditRequirement>, completed: set<string>, proposed: set<string>,
    credits: map<string, int>, i: nat, j: nat)
    requires Audited(groups, results, completed, proposed, credits) && i < j < |groups|
    requires !groups[i].allowDoubleCounting
    ensures SetOf(results[i].Selected()) !! SetOf(results[j].Selected())
  {
    hide AuditGroup;
    SelectionIsSound(groups[j], Spent(groups, results, j), completed, proposed, credits);
    SpentMeans(groups, results, j);
    assert results[j] == AuditGroup(groups[j], Spent(groups, results, j), completed, proposed, credits);
    assert results[i] == AuditGroup(groups[i], Spent(groups, results, i), completed, proposed, credits);
    if groups[i].unknown {
      UnknownSelectsNothing(groups[i], Spent(groups, results, i), completed, proposed, credits);
    } else {
      forall code | code in results[i].Selected() ensures code !in results[j].Selected() {
        assert code in SpentBy(groups[i], results[i]);
      }
    }
  }

  lemma UnknownSelectsNothing(
    group: RequirementGroup, used: set<string>, completed: set<string>, proposed: set<string>,
    credits: map<string, int>)
    requires group.unknown
    ensures AuditGroup(group, used, completed, proposed, credits).Selected() == []
  {
  }

  /** `codes` are the first `n` of `eligible` in the order of the codes, or all of them if there are fewer. */
  ghost predicate FirstOf(codes: seq<string>, eligible: set<string>, n: int) {
    && Distinct(codes) && SetOf(codes) <= eligible && |codes| == Min(n, |eligible|)
    && forall x, y | x in codes && y in eligible && y !in codes :: StrLeq(x, y)
  }

  lemma FirstUnspentIsFirst(available: set<string>, group: RequirementGroup, used: set<string>, slots: nat)
    ensures FirstOf(FirstUnspent(available, group, used, slots), available * group.courseCodes - used, slots)
  {
    var eligible := available * group.courseCodes - used;
    var all := SortedSet(eligible);
    SortedSetSorts(eligible);
    FirstUnspentMeans(available, group, used, slots);
    var codes := SliceTo(all, slots);
    forall x, y | x in codes && y in eligible && y !in codes ensures StrLeq(x, y) {
      var i :| 0 <= i < |codes| && codes[i] == x;
      var j :| 0 <= j < |all| && all[j] == y;
      assert forall k | 0 <= k < |codes| :: codes[k] == all[k] && codes[k] in codes && codes[k] != y;
    }
  }

  /**
   What a known group is credited with: completed courses first, each kind by code; the numbers still missing;
   and a state that is pending whenever a planned course counts without the group being satisfied.
   */
  lemma EntryMeans(
    group: RequirementGroup, used: set<string>, completed: set<string>, proposed: set<string>,
    credits: map<string, int>)
    requires !group.unknown && group.minCourses >= 0
    ensures var entry := AuditGroup(group, used, completed, proposed, credits);
      var done, planned := completed * group.courseCodes - used, proposed * group.courseCodes - used;
      var value := (code: string) => if code in credits then credits[code] else 0;
      var found := SumOver(SetOf(entry.satisfied), value) + SumOver(SetOf(entry.pending), value);
      && FirstOf(entry.satisfied, done, group.minCourses)
      && FirstOf(entry.pending, planned, group.minCourses - |entry.satisfied|)
      && entry.missingCourses == group.minCourses - |entry.satisfied| - |entry.pending|
      && entry.missingCredits == (if found < group.minCredits then group.minCredits - found else 0)
      && entry.groupId == group.id && entry.title == group.title && entry.state != Unknown
      && (entry.state == Satisfied ==> entry.missingCourses == 0 && entry.missingCredits == 0)
      && (entry.state == Unsatisfied ==>
        entry.pending == [] && (entry.missingCourses > 0 || entry.missingCredits > 0))
      && (entry.state == Pending ==>
        entry.pending != [] && (entry.missingCourses > 0 || entry.missingCredits > 0 || entry.satisfied == []))
  {
    var entry := AuditGroup(group, used, completed, proposed, credits);
    hide FirstUnspent, CreditSum;
    FirstUnspentIsFirst(completed, group, used, group.minCourses);
    FirstUnspentIsFirst(proposed, group, used, group.minCourses - |entry.satisfied|);
    CreditsOfDistinct(credits, entry.satisfied);
    CreditsOfDistinct(credits, entry.pending);
  }

  lemma {:induction false} CreditsOfDistinct(credits: map<string, int>, codes: seq<string>)
    requires Distinct(codes)
    ensures CreditSum(credits, codes)
      == SumOver(SetOf(codes), (code: string) => if code in credits then credits[code] else 0)
  {
    var value := (code: string) => if code in credits then credits[code] else 0;
    if codes == [] {
      assert SetOf(codes) == {};
    } else {
      var front, last := codes[..|codes| - 1], codes[|codes| - 1];
      CreditsOfDistinct(credits, front);
      assert codes == front + [last];
      assert SetOf(codes) == SetOf(front) + {last} && last !in SetOf(front);
      SumInsert(SetOf(front), value, last);
    }
  }

  /** A group with an unresolved rule takes nothing and lacks all it asks for. */
  lemma UnknownMeans(
    group: RequirementGroup, used: set<string>, completed: set<string>, proposed: set<string>,
    credits: map<string, int>)
    ensures var entry := AuditGroup(group, used, completed, proposed, credits);
      && (entry.state == Unknown <==> group.unknown)
      && (group.unknown ==>
        entry == AuditRequirement(group.id, group.title, Unknown, [], [], group.minCourses, group.minCredits))
  {
  }

  /** Satisfied means enough courses and enough credits. */
  lemma SatisfiedIsFull(
    group: RequirementGroup, used: set<string>, completed: set<string>, proposed: set<string>,
    credits: map<string, int>)
    ensures var entry := AuditGroup(group, used, completed, proposed, credits);
      entry.state == Satisfied <==>
        (!group.unknown && |entry.Selected()| >= group.minCourses
         && CreditSum(credits, entry.satisfied) + CreditSum(credits, entry.pending) >= group.minCredits
         && (entry.pending == [] || entry.satisfied != []))
  {
    hide FirstUnspent, CreditSum;
  }

  /**
   Sets of courses, one per group, each drawn from the group's list and as large as its minimum; the sets of
   exclusive groups meet no later one. Groups with an unresolved rule ask for nothing.
   */
  ghost predicate Witness(groups: seq<RequirementGroup>, taken: set<string>, chosen: seq<set<string>>) {
    && |chosen| == |groups|
    && (forall i | 0 <= i < |groups| && !groups[i].unknown ::
      chosen[i] <= groups[i].courseCodes * taken && |chosen[i]| == groups[i].minCourses)
    && (forall i, j | 0 <= i < j < |groups| && Exclusive(groups[i]) && !groups[j].unknown :: chosen[i] !! chosen[j])
  }

  /** What the group takes is gone for the later ones. */
  predicate Exclusive(group: RequirementGroup) {
    !group.unknown && !group.allowDoubleCounting
  }

  function Selections(results: seq<AuditRequirement>): seq<set<string>> {
    seq(|results|, i requires 0 <= i < |results| => SetOf(results[i].Selected()))
  }

  /** A complete audit is backed by real courses: no course stands for two. */
  lemma CompleteHasWitness(
    groups: seq<RequirementGroup>, audit: DegreeAudit, completed: set<string>, proposed: set<string>,
    credits: map<string, int>)
    requires Audited(groups, audit.requirements, completed, proposed, credits) && Complete(audit)
    requires completed !! proposed && forall i | 0 <= i < |groups| :: groups[i].minCourses >= 0
    ensures Witness(groups, completed + proposed, Selections(audit.requirements))
  {
    hide AuditGroup, Spent;
    var results := audit.requirements;
    forall i | 0 <= i < |groups|
      ensures SetOf(results[i].Selected()) <= groups[i].courseCodes * (completed + proposed)
      ensures |SetOf(results[i].Selected())| == groups[i].minCourses
    {
      var used := Spent(groups, results, i);
      assert results[i] == AuditGroup(groups[i], used, completed, proposed, credits);
      SelectionIsSound(groups[i], used, completed, proposed, credits);
      SatisfiedIsFull(groups[i], used, completed, proposed, credits);
      DistinctIffCount(results[i].Selected());
    }
    forall i, j | 0 <= i < j < |groups| && !groups[i].allowDoubleCounting
      ensures SetOf(results[i].Selected()) !! SetOf(results[j].Selected())
    {
      NoDoubleSpend(groups, results, completed, proposed, credits, i, j);
    }
  }

  // ---- Courses that count twice ----

  /** A group that lists one course and asks for two. */
  function TwoOf(code: string): RequirementGroup {
    RequirementGroup("g", "Two of one", {code}, 2, 0, false, false)
  }

  /** A course both completed and proposed fills two slots of one group. */
  lemma OverlapCountsTwice(
    results: seq<AuditRequirement>, completed: set<string>, proposed: set<string>, credits: map<string, int>,
    code: string)
    requires code in completed && code in proposed
    requires Audited([TwoOf(code)], results, completed, proposed, credits)
    ensures results[0].Selected() == [code, code] && results[0].missingCourses == 0
    ensures CreditOf(credits, code) >= 0 ==> results[0].state == Satisfied
  {
    var groups := [TwoOf(code)];
    assert Spent(groups, results, 0) == {};
    assert results[0] == AuditGroup(groups[0], {}, completed, proposed, credits);
    FirstOfOne(completed, groups[0], code, 2);
    FirstOfOne(proposed, groups[0], code, 1);
    assert CreditSum(credits, [code]) == CreditOf(credits, code);
  }

  lemma FirstOfOne(available: set<string>, group: RequirementGroup, code: string, slots: nat)
    requires code in available && group.courseCodes == {code} && slots >= 1
    ensures FirstUnspent(available, group, {}, slots) == [code]
  {
    assert available * group.courseCodes - {} == {code};
    var list := SortedSet({code});
    assert |list| == 1 && list[0] in list;
    assert SliceTo(list, slots) == list;
  }

  /** In no audit does a group count a course twice. */
  ghost predicate NeverCountsTwice(completed: set<string>, proposed: set<string>) {
    forall groups: seq<RequirementGroup>, results: seq<AuditRequirement>, credits: map<string, int>, i: int |
      Audited(groups, results, completed, proposed, credits) && 0 <= i < |groups| :: Distinct(results[i].Selected())
  }

  /** No audit counts a course twice exactly if no course is both completed and proposed. */
  lemma CountsOnceIffDisjoint(completed: set<string>, proposed: set<string>)
    ensures NeverCountsTwice(completed, proposed) <==> completed !! proposed
  {
    hide AuditGroup, Spent;
    if completed !! proposed {
      forall groups: seq<RequirementGroup>, results: seq<AuditRequirement>, credits: map<string, int>, i: int
        | Audited(groups, results, completed, proposed, credits) && 0 <= i < |groups|
        ensures Distinct(results[i].Selected())
      {
        SelectionIsSound(groups[i], Spent(groups, results, i), completed, proposed, credits);
        assert results[i] == AuditGroup(groups[i], Spent(groups, results, i), completed, proposed, credits);
      }
    } else {
      var code :| code in completed && code in proposed;
      var results := AuditExists([TwoOf(code)], completed, proposed, map[]);
      OverlapCountsTwice(results, completed, proposed, map[], code);
      var twice := results[0].Selected();
      assert twice[0] == twice[1];
    }
  }

  /** Every input has an audit. */
  lemma AuditExists(
    groups: seq<RequirementGroup>, completed: set<string>, proposed: set<string>, credits: map<string, int>)
    returns (results: seq<AuditRequirement>)
    ensures Audited(groups, results, completed, proposed, credits)
  {
    hide AuditedUpTo, Audited, Spent, AuditGroup;
    results := [];
    var used: set<string>, unknown: seq<string> := {}, [];
    AuditedStart(groups, completed, proposed, credits);
    for n := 0 to |groups|
      invariant AuditedUpTo(groups, results, completed, proposed, credits, n, used, unknown)
    {
      var entry := AuditGroup(groups[n], used, completed, proposed, credits);
      AuditedStep(groups, results, completed, proposed, credits, n, used, unknown, entry);
      results, used := results + [entry], used + SpentBy(groups[n], entry);
      unknown := if groups[n].unknown then unknown + [groups[n].title] else unknown;
    }
    AuditedEnd(groups, results, completed, proposed, credits, used, unknown);
  }

  // ---- Groups that get what their list alone would give them ----

  /** The earlier group `i` can take a course away that the later group `j` needs. */
  ghost predicate Contends(groups: seq<RequirementGroup>, i: nat, j: nat) {
    && i < j < |groups| && !groups[i].unknown && !groups[j].unknown && !groups[i].allowDoubleCounting
    && groups[i].minCourses != 0 && groups[j].minCourses >= 1
    && |groups[j].courseCodes| >= groups[j].minCourses
    && !(groups[i].courseCodes !! groups[j].courseCodes)
  }

  predicate Enough(group: RequirementGroup, completed: set<string>, proposed: set<string>) {
    |(completed + proposed) * group.courseCodes| >= group.minCourses
  }

  lemma CountAvailable(completed: set<string>, proposed: set<string>, codes: set<string>, used: set<string>)
    requires completed !! proposed && used !! codes
    ensures |(completed + proposed) * codes| == |completed * codes - used| + |proposed * codes - used|
  {
    var a, b := completed * codes, proposed * codes;
    assert a - used == a && b - used == b && a !! b;
    assert (completed + proposed) * codes == a + b;
  }

  /** A group that nobody contends with lacks courses exactly when its list holds too few available ones. */
  lemma UncontendedIsExact(
    groups: seq<RequirementGroup>, results: seq<AuditRequirement>, completed: set<string>, proposed: set<string>,
    credits: map<string, int>, j: nat)
    requires Audited(groups, results, completed, proposed, credits) && completed !! proposed
    requires j < |groups| && !groups[j].unknown && groups[j].minCourses >= 0 && forall i :: !Contends(groups, i, j)
    ensures results[j].missingCourses == 0 <==> Enough(groups[j], completed, proposed)
  {
    hide AuditGroup, Spent;
    var group, used := groups[j], Spent(groups, results, j);
    assert results[j] == AuditGroup(group, used, completed, proposed, credits);
    EnoughCourses(group, used, completed, proposed, credits);
    if group.minCourses >= 1 && |group.courseCodes| >= group.minCourses {
      UsedElsewhere(groups, results, completed, proposed, credits, j);
      CountAvailable(completed, proposed, group.courseCodes, used);
    } else {
      CountUnspent(completed, proposed, group.courseCodes, used);
    }
  }

  lemma UsedElsewhere(
    groups: seq<RequirementGroup>, results: seq<AuditRequirement>, completed: set<string>, proposed: set<string>,
    credits: map<string, int>, j: nat)
    requires Audited(groups, results, completed, proposed, credits) && j < |groups|
    requires !groups[j].unknown && 1 <= groups[j].minCourses <= |groups[j].courseCodes|
    requires forall i :: !Contends(groups, i, j)
    ensures Spent(groups, results, j) !! groups[j].courseCodes
  {
    hide AuditGroup, Spent;
    SpentMeans(groups, results, j);
    forall code | code in Spent(groups, results, j) ensures code !in groups[j].courseCodes {
      var k :| 0 <= k < j && code in SpentBy(groups[k], results[k]);
      assert results[k] == AuditGroup(groups[k], Spent(groups, results, k), completed, proposed, credits);
      SelectionIsSound(groups[k], Spent(groups, results, k), completed, proposed, credits);
      assert !Contends(groups, k, j);
    }
  }

  lemma CountUnspent(completed: set<string>, proposed: set<string>, codes: set<string>, used: set<string>)
    requires completed !! proposed
    ensures |completed * codes - used| + |proposed * codes - used|
      <= |(completed + proposed) * codes| <= |codes|
  {
    var a, b := completed * codes - used, proposed * codes - used;
    SubsetCounts(a + b, (completed + proposed) * codes);
    SubsetCounts((completed + proposed) * codes, codes);
  }

  lemma SubsetCounts<T>(small: set<T>, large: set<T>)
    requires small <= large
    ensures |small| <= |large|
  {
    assert large == small + (large - small);
  }

  /** A set of `n` of these codes that contains `code`. */
  lemma {:induction false} SubsetWith(codes: set<string>, code: string, n: nat) returns (chosen: set<string>)
    requires code in codes && 1 <= n <= |codes|
    ensures chosen <= codes && code in chosen && |chosen| == n
    decreases n
  {
    if n == 1 {
      chosen := {code};
    } else {
      chosen := SubsetWith(codes, code, n - 1);
      assert |codes - chosen| == |codes| - |chosen|;
      var other :| other in codes - chosen;
      chosen := chosen + {other};
    }
  }

  /** If just the shared code and others of its own list are available, the later group is starved. */
  lemma ContendedIsStarved(
    groups: seq<RequirementGroup>, results: seq<AuditRequirement>, chosen: set<string>, code: string, i: nat, j: nat)
    requires Contends(groups, i, j) && groups[i].minCourses >= 0 && Audited(groups, results, chosen, {}, map[])
    requires code in groups[i].courseCodes && code in chosen && chosen <= groups[j].courseCodes
    requires |chosen| == groups[j].minCourses
    ensures Enough(groups[j], chosen, {}) && results[j].missingCourses > 0
  {
    hide AuditGroup, Spent;
    var used := Spent(groups, results, j);
    assert (chosen + {}) * groups[j].courseCodes == chosen;
    assert results[i] == AuditGroup(groups[i], Spent(groups, results, i), chosen, {}, map[]);
    assert results[j] == AuditGroup(groups[j], used, chosen, {}, map[]);
    SpentMeans(groups, results, i);
    SpentMeans(groups, results, j);
    var lost := TakesOne(groups[i], Spent(groups, results, i), chosen, code);
    if lost != code || code !in Spent(groups, results, i) {
      assert lost in SpentBy(groups[i], results[i]);
    }
    assert lost in used;
    assert {} * groups[j].courseCodes - used == {};
    SubsetCounts(chosen * groups[j].courseCodes - used, chosen - {lost});
    EnoughCourses(groups[j], used, chosen, {}, map[]);
    assert |chosen - {lost}| == |chosen| - 1;
    NothingNegative(groups[j], used, chosen);
  }

  /** An exclusive group with a positive minimum takes one of the available codes, unless the shared one is gone. */
  lemma TakesOne(group: RequirementGroup, used: set<string>, chosen: set<string>, code: string) returns (lost: string)
    requires !group.unknown && group.minCourses >= 1 && code in group.courseCodes && code in chosen
    ensures lost in chosen
    ensures if code in used then lost == code else lost in AuditGroup(group, used, chosen, {}, map[]).Selected()
  {
    hide FirstUnspent, CreditSum;
    FirstUnspentMeans(chosen, group, used, group.minCourses);
    lost := code;
    if code !in used {
      var codes := FirstUnspent(chosen, group, used, group.minCourses);
      assert code in chosen * group.courseCodes - used;
      lost := codes[0];
      assert lost in codes;
      assert lost in AuditGroup(group, used, chosen, {}, map[]).satisfied;
    }
  }

  lemma NothingNegative(group: RequirementGroup, used: set<string>, completed: set<string>)
    requires !group.unknown
    ensures AuditGroup(group, used, completed, {}, map[]).missingCourses >= 0
  {
    hide FirstUnspent, CreditSum;
  }

  /** Whatever courses are taken, each known group lacks courses exactly when its list holds too few available ones. */
  ghost predicate ListsSuffice(groups: seq<RequirementGroup>) {
    forall results: seq<AuditRequirement>, completed: set<string>, proposed: set<string>, credits, j |
      Audited(groups, results, completed, proposed, credits) && completed !! proposed && 0 <= j < |groups|
      && !groups[j].unknown ::
      results[j].missingCourses == 0 <==> Enough(groups[j], completed, proposed)
  }

  /** For non-negative minima every group gets what its list alone offers exactly if no two groups contend. */
  lemma AloneIffUncontended(groups: seq<RequirementGroup>)
    requires forall i | 0 <= i < |groups| :: groups[i].minCourses >= 0
    ensures ListsSuffice(groups) <==> forall i, j :: !Contends(groups, i, j)
  {
    hide AuditGroup, Spent, Enough, Contends;
    if forall i, j :: !Contends(groups, i, j) {
      forall results: seq<AuditRequirement>, completed: set<string>, proposed: set<string>, credits, j |
        Audited(groups, results, completed, proposed, credits) && completed !! proposed && 0 <= j < |groups|
        && !groups[j].unknown
        ensures results[j].missingCourses == 0 <==> Enough(groups[j], completed, proposed)
      {
        UncontendedIsExact(groups, results, completed, proposed, credits, j);
      }
    }
    if i, j :| Contends(groups, i, j) {
      ContendersAreGroups(groups, i, j);
      ContentionStarves(groups, i, j);
    }
  }

  lemma ContendersAreGroups(groups: seq<RequirementGroup>, i: nat, j: nat)
    requires Contends(groups, i, j)
    ensures i < j < |groups|
  {
  }

  lemma ContentionStarves(groups: seq<RequirementGroup>, i: nat, j: nat)
    requires Contends(groups, i, j) && groups[i].minCourses >= 0
    ensures !ListsSuffice(groups)
  {
    var code :| code in groups[i].courseCodes && code in groups[j].courseCodes;
    var chosen := SubsetWith(groups[j].courseCodes, code, groups[j].minCourses);
    var results := AuditExists(groups, chosen, {}, map[]);
    hide AuditGroup, Spent, Enough;
    ContendedIsStarved(groups, results, chosen, code, i, j);
  }

  lemma EnoughCourses(
    group: RequirementGroup, used: set<string>, completed: set<string>, proposed: set<string>,
    credits: map<string, int>)
    requires !group.unknown && group.minCourses >= 0
    ensures AuditGroup(group, used, completed, proposed, credits).missingCourses == 0
      <==> |completed * group.courseCodes - used| + |proposed * group.courseCodes - used| >= group.minCourses
  {
    hide FirstUnspent, CreditSum;
    FirstUnspentMeans(completed, group, used, group.minCourses);
    var entry := AuditGroup(group, used, completed, proposed, credits);
    FirstUnspentMeans(proposed, group, used, Max(0, group.minCourses - |entry.satisfied|));
  }

  // ---- How good the greedy choice is ----

  /** The same groups with other minima. */
  function WithMinima(groups: seq<RequirementGroup>, minima: seq<nat>): (r: seq<RequirementGroup>)
    requires |minima| == |groups|
    ensures |r| == |groups|
  {
    seq(|groups|, i requires 0 <= i < |groups| => groups[i].(minCourses := minima[i]))
  }

  /** Whatever the minima and the courses, the audit serves every group if any allocation serves them all. */
  ghost predicate NeverMisses(groups: seq<RequirementGroup>) {
    forall minima: seq<nat>, results: seq<AuditRequirement>, completed: set<string>, proposed: set<string>, credits,
        chosen, j |
      && |minima| == |groups| && completed !! proposed
      && Audited(WithMinima(groups, minima), results, completed, proposed, credits)
      && Witness(WithMinima(groups, minima), completed + proposed, chosen)
      && 0 <= j < |groups| && !groups[j].unknown ::
      results[j].missingCourses == 0
  }

  /** What the exclusive group `i` lists is listed by the later group `j` too, or nothing of it is. */
  predicate NestedIn(groups: seq<RequirementGroup>, i: nat, j: nat)
    requires i < |groups| && j < |groups|
  {
    Exclusive(groups[i]) && !groups[j].unknown ==>
      groups[i].courseCodes <= groups[j].courseCodes || groups[i].courseCodes !! groups[j].courseCodes
  }

  /** What the exclusive groups among the first `n` that share a course with group `j` may take at most. */
  function Load(groups: seq<RequirementGroup>, n: nat, j: nat): int
    requires n <= j < |groups|
  {
    if n == 0 then 0
    else if Exclusive(groups[n - 1]) && !(groups[n - 1].courseCodes !! groups[j].courseCodes) then
      Load(groups, n - 1, j) + groups[n - 1].minCourses
    else Load(groups, n - 1, j)
  }

  /** What an allocation gives to the same groups. */
  ghost function Held(groups: seq<RequirementGroup>, chosen: seq<set<string>>, n: nat, j: nat): set<string>
    requires n <= j < |groups| == |chosen|
  {
    if n == 0 then {}
    else if Exclusive(groups[n - 1]) && !(groups[n - 1].courseCodes !! groups[j].courseCodes) then
      Held(groups, chosen, n - 1, j) + chosen[n - 1]
    else Held(groups, chosen, n - 1, j)
  }

  lemma {:induction false} SpentIsBounded(
    groups: seq<RequirementGroup>, results: seq<AuditRequirement>, completed: set<string>, proposed: set<string>,
    credits: map<string, int>, n: nat, j: nat)
    requires Audited(groups, results, completed, proposed, credits) && n <= j < |groups|
    requires forall i | 0 <= i < |groups| && !groups[i].unknown :: groups[i].minCourses >= 0
    ensures |Spent(groups, results, n) * groups[j].courseCodes| <= Load(groups, n, j)
  {
    hide AuditGroup, SpentBy, Exclusive;
    if n == 0 {
      assert {} * groups[j].courseCodes == {};
    } else {
      SpentIsBounded(groups, results, completed, proposed, credits, n - 1, j);
      var group, used, codes := groups[n - 1], Spent(groups, results, n - 1), groups[j].courseCodes;
      assert results[n - 1] == AuditGroup(group, used, completed, proposed, credits);
      SpendsLittle(group, used, completed, proposed, credits, codes);
      MeetCounts(used, SpentBy(group, results[n - 1]), codes);
    }
  }

  /** An exclusive group spends at most its minimum, and nothing of a list apart from its own. */
  lemma SpendsLittle(
    group: RequirementGroup, used: set<string>, completed: set<string>, proposed: set<string>,
    credits: map<string, int>, codes: set<string>)
    requires !group.unknown ==> group.minCourses >= 0
    ensures var spent := SpentBy(group, AuditGroup(group, used, completed, proposed, credits));
      && (!Exclusive(group) || group.courseCodes !! codes ==> spent * codes == {})
      && (Exclusive(group) ==> |spent * codes| <= group.minCourses)
  {
    SelectionIsSound(group, used, completed, proposed, credits);
    hide AuditGroup;
    var entry := AuditGroup(group, used, completed, proposed, credits);
    SetOfIsSmall(entry.Selected());
    SubsetCounts(SpentBy(group, entry) * codes, SpentBy(group, entry));
  }

  lemma MeetCounts(a: set<string>, b: set<string>, codes: set<string>)
    ensures |(a + b) * codes| <= |a * codes| + |b * codes|
  {
    assert (a + b) * codes == a * codes + b * codes;
    assert |a * codes + b * codes| <= |a * codes| + |b * codes|;
  }

  lemma {:induction false} SetOfIsSmall(xs: seq<string>)
    ensures |SetOf(xs)| <= |xs|
  {
    if xs != [] {
      var rest, last := xs[..|xs| - 1], xs[|xs| - 1];
      SetOfIsSmall(rest);
      assert xs == rest + [last];
      assert SetOf(xs) == SetOf(rest) + {last};
    }
  }

  lemma {:induction false} HeldIsLoad(
    groups: seq<RequirementGroup>, taken: set<string>, chosen: seq<set<string>>, n: nat, j: nat)
    requires Witness(groups, taken, chosen) && n <= j < |groups|
    requires forall i | 0 <= i < j :: NestedIn(groups, i, j)
    requires !groups[j].unknown
    ensures |Held(groups, chosen, n, j)| == Load(groups, n, j)
    ensures Held(groups, chosen, n, j) <= groups[j].courseCodes * taken
    ensures forall k | n <= k < |groups| && !groups[k].unknown :: Held(groups, chosen, n, j) !! chosen[k]
  {
    if n > 0 {
      HeldIsLoad(groups, taken, chosen, n - 1, j);
      assert NestedIn(groups, n - 1, j);
    }
  }

  /** A group in which the earlier exclusive ones are nested is served whenever some allocation serves all groups. */
  lemma NestedIsServed(
    groups: seq<RequirementGroup>, results: seq<AuditRequirement>, completed: set<string>, proposed: set<string>,
    credits: map<string, int>, chosen: seq<set<string>>, j: nat)
    requires Audited(groups, results, completed, proposed, credits) && completed !! proposed
    requires Witness(groups, completed + proposed, chosen) && j < |groups| && !groups[j].unknown
    requires forall i | 0 <= i < j :: NestedIn(groups, i, j)
    ensures results[j].missingCourses == 0
  {
    hide AuditGroup, Spent, Load, Held;
    var group, used, held := groups[j], Spent(groups, results, j), Held(groups, chosen, j, j);
    assert |chosen[j]| == group.minCourses;
    SpentIsBounded(groups, results, completed, proposed, credits, j, j);
    HeldIsLoad(groups, completed + proposed, chosen, j, j);
    var codes := group.courseCodes;
    var listed := (completed + proposed) * codes;
    SubsetCounts(held + chosen[j], listed);
    assert |held + chosen[j]| == |held| + |chosen[j]|;
    var a, b := completed * codes - used, proposed * codes - used;
    assert |a + b| == |a| + |b|;
    SubsetCounts(listed, (a + b) + used * codes);
    assert results[j] == AuditGroup(group, used, completed, proposed, credits);
    EnoughCourses(group, used, completed, proposed, credits);
  }

  /** One course for each of the two groups, none for the others. */
  function OneForBoth(n: nat, i: nat, j: nat): seq<nat> {
    seq(n, k => if k == i || k == j then 1 else 0)
  }

  /** The exclusive group `i` takes the shared course although the private one would do. */
  lemma OverlapIsMissed(groups: seq<RequirementGroup>, i: nat, j: nat, shared: string, private: string)
    requires i < j < |groups| && Exclusive(groups[i]) && !groups[j].unknown
    requires shared in groups[i].courseCodes && shared in groups[j].courseCodes
    requires private in groups[i].courseCodes && private !in groups[j].courseCodes
    ensures !NeverMisses(groups)
  {
    hide AuditGroup, Spent;
    var minima := OneForBoth(|groups|, i, j);
    var asked := WithMinima(groups, minima);
    var results := AuditExists(asked, {shared}, {private}, map[]);
    var chosen := seq(|groups|, k => if k == i then {private} else if k == j then {shared} else {});
    assert Witness(asked, {shared} + {private}, chosen);
    SharedIsSpent(asked, results, i, j, shared, private);
    var used := Spent(asked, results, j);
    assert results[j] == AuditGroup(asked[j], used, {shared}, {private}, map[]);
    EnoughCourses(asked[j], used, {shared}, {private}, map[]);
    assert {shared} * asked[j].courseCodes - used == {} && {private} * asked[j].courseCodes - used == {};
    assert results[j].missingCourses != 0;
  }

  lemma SharedIsSpent(
    groups: seq<RequirementGroup>, results: seq<AuditRequirement>, i: nat, j: nat, shared: string, private: string)
    requires i < j < |groups| && Exclusive(groups[i]) && shared in groups[i].courseCodes && groups[i].minCourses == 1
    requires forall k | 0 <= k < i :: groups[k].minCourses == 0
    requires Audited(groups, results, {shared}, {private}, map[])
    ensures shared in Spent(groups, results, j)
  {
    hide AuditGroup, Spent;
    var used := Spent(groups, results, i);
    SpentMeans(groups, results, i);
    SpentMeans(groups, results, j);
    forall code ensures code !in used {
      forall k | 0 <= k < i ensures code !in SpentBy(groups[k], results[k]) {
        assert results[k] == AuditGroup(groups[k], Spent(groups, results, k), {shared}, {private}, map[]);
        SelectionIsSound(groups[k], Spent(groups, results, k), {shared}, {private}, map[]);
      }
    }
    assert used == {};
    assert results[i] == AuditGroup(groups[i], used, {shared}, {private}, map[]);
    TakesTheOnly(groups[i], shared, {private});
    assert shared in SpentBy(groups[i], results[i]);
  }

  lemma TakesTheOnly(group: RequirementGroup, code: string, proposed: set<string>)
    requires !group.unknown && group.minCourses == 1 && code in group.courseCodes
    ensures code in AuditGroup(group, {}, {code}, proposed, map[]).Selected()
  {
    hide FirstUnspent, CreditSum;
    FirstUnspentMeans({code}, group, {}, 1);
    assert {code} * group.courseCodes - {} == {code};
    var taken := FirstUnspent({code}, group, {}, 1);
    assert taken[0] in taken;
    assert code in AuditGroup(group, {}, {code}, proposed, map[]).satisfied;
  }

  lemma MinimaKeepLists(groups: seq<RequirementGroup>, minima: seq<nat>, i: nat, j: nat)
    requires |minima| == |groups| && i < |groups| && j < |groups|
    ensures NestedIn(WithMinima(groups, minima), i, j) <==> NestedIn(groups, i, j)
  {
  }

  /**
   Whatever the minima, the audit finds an allocation whenever there is one, exactly if the list of every
   exclusive group lies within the list of each later group or apart from it.
   */
  lemma GreedyIsExact(groups: seq<RequirementGroup>)
    ensures NeverMisses(groups) <==> forall i, j | 0 <= i < j < |groups| :: NestedIn(groups, i, j)
  {
    hide AuditGroup, Spent, Witness;
    if forall i, j | 0 <= i < j < |groups| :: NestedIn(groups, i, j) {
      forall minima: seq<nat>, results: seq<AuditRequirement>, completed: set<string>, proposed: set<string>, credits,
        chosen, j
        | && |minima| == |groups| && completed !! proposed
          && Audited(WithMinima(groups, minima), results, completed, proposed, credits)
          && Witness(WithMinima(groups, minima), completed + proposed, chosen)
          && 0 <= j < |groups| && !groups[j].unknown
        ensures results[j].missingCourses == 0
      {
        var asked := WithMinima(groups, minima);
        forall i | 0 <= i < j ensures NestedIn(asked, i, j) {
          MinimaKeepLists(groups, minima, i, j);
        }
        NestedIsServed(asked, results, completed, proposed, credits, chosen, j);
      }
    }
    if i, j :| 0 <= i < j < |groups| && !NestedIn(groups, i, j) {
      var shared :| shared in groups[i].courseCodes && shared in groups[j].courseCodes;
      var private :| private in groups[i].courseCodes && private !in groups[j].courseCodes;
      OverlapIsMissed(groups, i, j, shared, private);
    }
  }

  /** Completed courses alone: the first group takes the course only the second could not replace. */
  lemma GreedyMayStarve(results: seq<AuditRequirement>)
    requires var groups := [RequirementGroup("1", "Either", {"A", "B"}, 1, 0, false, false),
      RequirementGroup("2", "Only A", {"A"}, 1, 0, false, false)];
      Audited(groups, results, {"A", "B"}, {}, map[])
    ensures results[1].state == Unsatisfied
    ensures Witness([RequirementGroup("1", "Either", {"A", "B"}, 1, 0, false, false),
      RequirementGroup("2", "Only A", {"A"}, 1, 0, false, false)],
      {"A", "B"}, [{"B"}, {"A"}])
  {
    var groups := [RequirementGroup("1", "Either", {"A", "B"}, 1, 0, false, false),
      RequirementGroup("2", "Only A", {"A"}, 1, 0, false, false)];
    hide AuditGroup;
    assert Spent(groups, results, 0) == {};
    assert results[0] == AuditGroup(groups[0], {}, {"A", "B"}, {}, map[]);
    EitherTakesA();
    assert "A" in SpentBy(groups[0], results[0]);
    SpentMeans(groups, results, 1);
    assert results[1] == AuditGroup(groups[1], Spent(groups, results, 1), {"A", "B"}, {}, map[]);
    OnlyAStarves(Spent(groups, results, 1));
    assert {"B"} <= {"A", "B"} * {"A", "B"} && {"A"} <= {"A"} * {"A", "B"};
  }

  lemma EitherTakesA()
    ensures "A" in AuditGroup(RequirementGroup("1", "Either", {"A", "B"}, 1, 0, false, false), {}, {"A", "B"}, {},
      map[]).satisfied
  {
    assert {"A", "B"} * {"A", "B"} - {} == {"A", "B"};
    var list := SortedSet({"A", "B"});
    SortedSetSorts({"A", "B"});
    FirstIsA(list);
    assert SliceTo(list, 1)[0] == "A";
  }

  lemma OnlyAStarves(used: set<string>)
    requires "A" in used
    ensures AuditGroup(RequirementGroup("2", "Only A", {"A"}, 1, 0, false, false), used, {"A", "B"}, {},
      map[]).state == Unsatisfied
  {
    assert {"A", "B"} * {"A"} - used == {};
    assert {} * {"A"} - used == {};
    assert SortedSet({}) == [];
  }

  lemma FirstIsA(list: seq<string>)
    requires SortedBy(list, StrLeq) && |list| == 2 && forall x :: x in list <==> x in {"A", "B"}
    ensures list[0] == "A"
  {
    assert list[0] in list && list[1] in list;
    assert "A" in list;
    assert !StrLeq("B", "A");
  }
}

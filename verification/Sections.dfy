/** Section selection: backtracking over one option per planned course, and its independent re-check. */
module Sections {
  import opened Ordering
  import opened Outcomes

  datatype Meeting = Meeting(weekday: int, startMinute: Option<int>, endMinute: Option<int>, known: bool)

  datatype SectionOption = SectionOption(
    courseCode: string, termIndex: int, sectionId: string, meetings: seq<Meeting>, asynchronous: bool)

  /** Half-open intervals on one weekday; a meeting with an unknown time overlaps nothing. */
  predicate Overlaps(a: Meeting, b: Meeting) {
    && a.known && b.known && a.startMinute.Some? && b.startMinute.Some? && a.endMinute.Some? && b.endMinute.Some?
    && a.weekday == b.weekday && a.startMinute.value < b.endMinute.value && b.startMinute.value < a.endMinute.value
  }

  /** The meeting runs at minute `m` of weekday `day`. */
  predicate RunsAt(meeting: Meeting, day: int, m: int) {
    && meeting.known && meeting.startMinute.Some? && meeting.endMinute.Some? && meeting.weekday == day
    && meeting.startMinute.value <= m < meeting.endMinute.value
  }

  /** A meeting with known times takes some time. */
  predicate Proper(meeting: Meeting) {
    meeting.startMinute.Some? && meeting.endMinute.Some? ==> meeting.startMinute.value < meeting.endMinute.value
  }

  /** Two proper meetings overlap exactly if both run at some minute of one weekday. */
  lemma OverlapsMeans(a: Meeting, b: Meeting)
    requires Proper(a) && Proper(b)
    ensures Overlaps(a, b) <==> exists day, m :: RunsAt(a, day, m) && RunsAt(b, day, m)
  {
    if Overlaps(a, b) {
      var m := if a.startMinute.value >= b.startMinute.value then a.startMinute.value else b.startMinute.value;
      assert RunsAt(a, a.weekday, m) && RunsAt(b, a.weekday, m);
    }
  }

  predicate HasUnknownMeetings(o: SectionOption) {
    !o.asynchronous && exists m :: m in o.meetings && !m.known
  }

  predicate Conflicts(left: SectionOption, right: SectionOption) {
    exists m, n :: m in left.meetings && n in right.meetings && Overlaps(m, n)
  }

  predicate Blocked(o: SectionOption, blocked: seq<Meeting>) {
    exists m, b :: m in o.meetings && b in blocked && Overlaps(m, b)
  }

  /** Some meeting of the option runs at minute `m` of weekday `day`. */
  ghost predicate Occupies(meetings: seq<Meeting>, day: int, m: int) {
    exists meeting :: meeting in meetings && RunsAt(meeting, day, m)
  }

  /** Options conflict, and a blocked time is met, exactly if both are busy at some minute of one weekday. */
  lemma ConflictsMean(left: SectionOption, right: SectionOption, blocked: seq<Meeting>)
    requires forall m | m in left.meetings || m in right.meetings || m in blocked :: Proper(m)
    ensures Conflicts(left, right) <==>
      exists day, m :: Occupies(left.meetings, day, m) && Occupies(right.meetings, day, m)
    ensures Blocked(left, blocked) <==>
      exists day, m :: Occupies(left.meetings, day, m) && Occupies(blocked, day, m)
  {
    MeetingsClash(left.meetings, right.meetings);
    MeetingsClash(left.meetings, blocked);
  }

  lemma MeetingsClash(left: seq<Meeting>, right: seq<Meeting>)
    requires forall m | m in left || m in right :: Proper(m)
    ensures (exists m, n :: m in left && n in right && Overlaps(m, n)) <==>
      exists day, m :: Occupies(left, day, m) && Occupies(right, day, m)
  {
    if a, b :| a in left && b in right && Overlaps(a, b) {
      OverlapsMeans(a, b);
      var day, m :| RunsAt(a, day, m) && RunsAt(b, day, m);
      assert Occupies(left, day, m) && Occupies(right, day, m);
    }
    if day, m :| Occupies(left, day, m) && Occupies(right, day, m) {
      var a :| a in left && RunsAt(a, day, m);
      var b :| b in right && RunsAt(b, day, m);
      OverlapsMeans(a, b);
    }
  }

  lemma ConflictsSymmetric(left: SectionOption, right: SectionOption)
    ensures Conflicts(left, right) <==> Conflicts(right, left)
  {
    if m, n :| m in left.meetings && n in right.meetings && Overlaps(m, n) {
      assert Overlaps(n, m);
    }
    if m, n :| m in right.meetings && n in left.meetings && Overlaps(m, n) {
      assert Overlaps(n, m);
    }
  }

  datatype Clash =
    | WrongTerm(code: string)
    | BlockedTime(code: string)
    | Pairwise(left: string, right: string)
    | NoOption(code: string)
    | NoCombination

  datatype ScheduleStatus = Valid | Invalid | Feasible | Infeasible

  /** A dictionary from course to option, in insertion order. */
  type Selection = seq<(string, SectionOption)>

  datatype ScheduleResult = ScheduleResult(
    status: ScheduleStatus, selected: Selection, conflicts: seq<Clash>, unknown: seq<string>)

  // ---- The validator ----

  ghost predicate EntryOk(entry: (string, SectionOption), expected: map<string, int>, blocked: seq<Meeting>) {
    (entry.0 in expected ==> expected[entry.0] == entry.1.termIndex) && !Blocked(entry.1, blocked)
  }

  ghost predicate NoPairConflicts(selected: Selection, n: nat)
    requires n <= |selected|
  {
    forall i, j | 0 <= i < j < |selected| && i < n :: !Conflicts(selected[i].1, selected[j].1)
  }

  /** The selected options are in their planned terms, outside blocked times and pairwise compatible. */
  ghost predicate ScheduleOk(selected: Selection, expected: map<string, int>, blocked: seq<Meeting>) {
    && (forall i | 0 <= i < |selected| :: EntryOk(selected[i], expected, blocked))
    && NoPairConflicts(selected, |selected|)
  }

  /** What the re-check may object to. */
  ghost predicate Objection(selected: Selection, expected: map<string, int>, blocked: seq<Meeting>, clash: Clash) {
    match clash
    case WrongTerm(code) =>
      exists i ::
      0 <= i < |selected| && selected[i].0 == code && code in expected && expected[code] != selected[i].1.termIndex
    case BlockedTime(code) =>
      exists i :: 0 <= i < |selected| && selected[i].0 == code && Blocked(selected[i].1, blocked)
    case Pairwise(left, right) => PairObjection(selected, |selected|, |selected|, left, right)
    case _ => false
  }

  /** Two conflicting options with these codes among the pairs met before position (`n`, `m`). */
  ghost predicate PairObjection(selected: Selection, n: nat, m: nat, left: string, right: string)
    requires n <= |selected| && m <= |selected|
  {
    exists i, j :: 0 <= i < j < |selected| && (i < n || (i == n && j < m)) && Conflicts(selected[i].1, selected[j].1)
      && selected[i].1.courseCode == left && selected[j].1.courseCode == right
  }

  lemma NoObjectionIffOk(selected: Selection, expected: map<string, int>, blocked: seq<Meeting>)
    ensures (forall clash :: !Objection(selected, expected, blocked, clash)) <==>
      ScheduleOk(selected, expected, blocked)
  {
    if forall clash :: !Objection(selected, expected, blocked, clash) {
      forall i | 0 <= i < |selected| ensures EntryOk(selected[i], expected, blocked) {
        assert !Objection(selected, expected, blocked, WrongTerm(selected[i].0));
        assert !Objection(selected, expected, blocked, BlockedTime(selected[i].0));
      }
      forall i, j | 0 <= i < j < |selected| ensures !Conflicts(selected[i].1, selected[j].1) {
        assert !Objection(selected, expected, blocked, Pairwise(selected[i].1.courseCode, selected[j].1.courseCode));
      }
    }
  }

  method ValidateSchedule(selected: Selection, expected: map<string, int>, blocked: seq<Meeting>)
    returns (result: ScheduleResult)
    ensures result.selected == selected
    ensures result.status == if result.conflicts == [] then Valid else Invalid
    ensures forall clash :: clash in result.conflicts <==> Objection(selected, expected, blocked, clash)
    ensures result.conflicts == [] <==> ScheduleOk(selected, expected, blocked)
    ensures forall code :: code in result.unknown <==>
      exists i :: 0 <= i < |selected| && selected[i].0 == code && HasUnknownMeetings(selected[i].1)
    ensures Distinct(result.conflicts) && Distinct(result.unknown)
  {
    var entries, unknown := CheckEntries(selected, expected, blocked);
    var pairs := CheckPairs(selected);
    var conflicts := Dedup(entries + pairs);
    NoObjectionIffOk(selected, expected, blocked);
    assert conflicts != [] ==> conflicts[0] in conflicts;
    result := ScheduleResult(if conflicts == [] then Valid else Invalid, selected, conflicts, Dedup(unknown));
  }

  /** The loop over the selected entries. */
  method CheckEntries(selected: Selection, expected: map<string, int>, blocked: seq<Meeting>)
    returns (conflicts: seq<Clash>, unknown: seq<string>)
    ensures forall clash: Clash :: clash in conflicts <==>
      !clash.Pairwise? && Objection(selected, expected, blocked, clash)
    ensures forall code :: code in unknown <==>
      exists i :: 0 <= i < |selected| && selected[i].0 == code && HasUnknownMeetings(selected[i].1)
  {
    conflicts, unknown := [], [];
    for i := 0 to |selected|
      invariant forall clash: Clash :: clash in conflicts <==>
        !clash.Pairwise? && Objection(selected[..i], expected, blocked, clash)
      invariant forall code :: code in unknown <==>
        exists k :: 0 <= k < i && selected[k].0 == code && HasUnknownMeetings(selected[k].1)
    {
      var (code, option) := selected[i];
      ghost var before := conflicts;
      if code in expected && expected[code] != option.termIndex {
        conflicts := conflicts + [WrongTerm(code)];
      }
      if HasUnknownMeetings(option) {
        unknown := unknown + [code];
      }
      if Blocked(option, blocked) {
        conflicts := conflicts + [BlockedTime(code)];
      }
      EntryStep(selected, expected, blocked, i);
    }
    assert selected[..|selected|] == selected;
  }

  lemma EntryStep(selected: Selection, expected: map<string, int>, blocked: seq<Meeting>, i: nat)
    requires i < |selected|
    ensures forall clash: Clash | !clash.Pairwise? :: Objection(selected[..i + 1], expected, blocked, clash) <==>
      Objection(selected[..i], expected, blocked, clash)
      || (clash == WrongTerm(selected[i].0) && selected[i].0 in expected
         && expected[selected[i].0] != selected[i].1.termIndex)
      || (clash == BlockedTime(selected[i].0) && Blocked(selected[i].1, blocked))
  {
    hide Blocked;
    var more, less := selected[..i + 1], selected[..i];
    assert more[i] == selected[i] && forall k | 0 <= k < i :: more[k] == less[k];
  }

  /** The double loop over pairs. */
  method CheckPairs(selected: Selection) returns (conflicts: seq<Clash>)
    ensures forall clash: Clash :: clash in conflicts <==>
      clash.Pairwise? && PairObjection(selected, |selected|, |selected|, clash.left, clash.right)
  {
    hide Conflicts;
    conflicts := [];
    for i := 0 to |selected|
      invariant forall clash: Clash :: clash in conflicts <==>
        clash.Pairwise? && PairObjection(selected, i, 0, clash.left, clash.right)
    {
      for j := i + 1 to |selected|
        invariant forall clash: Clash :: clash in conflicts <==>
          clash.Pairwise? && PairObjection(selected, i, j, clash.left, clash.right)
      {
        if Conflicts(selected[i].1, selected[j].1) {
          conflicts := conflicts + [Pairwise(selected[i].1.courseCode, selected[j].1.courseCode)];
        }
      }
    }
  }

  // ---- The search space ----

  /** The option lists in search order; a pick chooses one position per list. */
  type Lists = seq<seq<SectionOption>>

  predicate InRange(lists: Lists, picks: seq<nat>) {
    |picks| <= |lists| && forall i | 0 <= i < |picks| :: picks[i] < |lists[i]|
  }

  function Chosen(lists: Lists, picks: seq<nat>, i: nat): SectionOption
    requires InRange(lists, picks) && i < |picks|
  {
    lists[i][picks[i]]
  }

  /** No two picked options conflict and none meets a blocked time. */
  ghost predicate Free(lists: Lists, blocked: seq<Meeting>, picks: seq<nat>)
    requires InRange(lists, picks)
  {
    && (forall i | 0 <= i < |picks| :: !Blocked(Chosen(lists, picks, i), blocked))
    && (forall i, j | 0 <= i < j < |picks| :: !Conflicts(Chosen(lists, picks, j), Chosen(lists, picks, i)))
  }

  ghost predicate Solution(lists: Lists, blocked: seq<Meeting>, picks: seq<nat>) {
    |picks| == |lists| && InRange(lists, picks) && Free(lists, blocked, picks)
  }

  /** `p` comes before `q`: it is smaller at the first difference. */
  ghost predicate Before(p: seq<nat>, q: seq<nat>) {
    exists k :: 0 <= k < |p| && k < |q| && p[..k] == q[..k] && p[k] < q[k]
  }

  /** The first solution that continues `prefix`. */
  ghost predicate FirstWithin(lists: Lists, blocked: seq<Meeting>, prefix: seq<nat>, picks: seq<nat>) {
    && Solution(lists, blocked, picks) && prefix <= picks
    && (forall q | Solution(lists, blocked, q) && prefix <= q :: q == picks || Before(picks, q))
  }

  lemma ExtendsFree(lists: Lists, blocked: seq<Meeting>, prefix: seq<nat>, r: nat)
    requires InRange(lists, prefix) && Free(lists, blocked, prefix) && |prefix| < |lists| && r < |lists[|prefix|]|
    requires !Blocked(lists[|prefix|][r], blocked)
    requires forall i | 0 <= i < |prefix| :: !Conflicts(lists[|prefix|][r], Chosen(lists, prefix, i))
    ensures InRange(lists, prefix + [r]) && Free(lists, blocked, prefix + [r])
  {
    var longer := prefix + [r];
    assert forall i | 0 <= i < |prefix| :: Chosen(lists, longer, i) == Chosen(lists, prefix, i);
    assert Chosen(lists, longer, |prefix|) == lists[|prefix|][r];
  }

  class SectionSearch {
    const ordered: seq<string>
    const lists: Lists
    const blocked: seq<Meeting>
    var selected: Selection
    ghost var picks: seq<nat>

    /** `selected` holds the picked options of the first courses in search order. */
    ghost predicate Valid()
      reads this
    {
      && |ordered| == |lists|
      && InRange(lists, picks) && Free(lists, blocked, picks)
      && |selected| == |picks|
      && (forall i | 0 <= i < |picks| :: selected[i] == (ordered[i], Chosen(lists, picks, i)))
    }

    constructor (ordered: seq<string>, lists: Lists, blocked: seq<Meeting>)
      requires |ordered| == |lists|
      ensures Valid() && picks == [] && this.ordered == ordered && this.lists == lists && this.blocked == blocked
    {
      this.ordered, this.lists, this.blocked := ordered, lists, blocked;
      selected, picks := [], [];
    }

    method Search(index: nat) returns (found: bool)
      requires Valid() && index == |picks|
      modifies this
      ensures Valid()
      ensures found ==> FirstWithin(lists, blocked, old(picks), picks)
      ensures !found ==> picks == old(picks) && selected == old(selected)
      ensures !found ==> forall q | Solution(lists, blocked, q) :: !(picks <= q)
      decreases |lists| - index
    {
      hide Free, Conflicts, Blocked, Before;
      if index == |ordered| {
        FirstAtTheEnd();
        return true;
      }
      ghost var prefix := picks;
      for r := 0 to |lists[index]|
        invariant Valid() && picks == prefix && selected == old(selected)
        invariant forall q | Solution(lists, blocked, q) && prefix <= q :: q[index] >= r
      {
        var option := lists[index][r];
        ghost var longer := prefix + [r];
        if (exists i :: 0 <= i < |selected| && Conflicts(option, selected[i].1)) || Blocked(option, blocked) {
          NoSolutionThrough(prefix, r);
          continue;
        }
        ExtendsFree(lists, blocked, prefix, r);
        selected := selected + [(ordered[index], option)];
        picks := longer;
        var rest := Search(index + 1);
        if rest {
          FirstAbove(prefix, r);
          return true;
        }
        picks := prefix;
        selected := selected[..index];
        forall q | Solution(lists, blocked, q) && prefix <= q ensures q[index] != r {
          assert q[index] == r ==> longer <= q;
        }
      }
      return false;
    }

    lemma FirstAtTheEnd()
      requires Valid() && |picks| == |lists|
      ensures FirstWithin(lists, blocked, picks, picks)
    {
    }

    /** An option that clashes with the selection or a blocked time is in no solution. */
    lemma NoSolutionThrough(prefix: seq<nat>, r: nat)
      requires Valid() && picks == prefix && |prefix| < |lists| && r < |lists[|prefix|]|
      requires (exists i :: 0 <= i < |selected| && Conflicts(lists[|prefix|][r], selected[i].1))
        || Blocked(lists[|prefix|][r], blocked)
      ensures forall q | Solution(lists, blocked, q) && prefix <= q :: q[|prefix|] != r
    {
      var n := |prefix|;
      forall q | Solution(lists, blocked, q) && prefix <= q ensures q[n] != r {
        assert !Blocked(Chosen(lists, q, n), blocked);
        if i :| 0 <= i < |selected| && Conflicts(lists[n][r], selected[i].1) {
          assert q[i] == prefix[i] && !Conflicts(Chosen(lists, q, n), Chosen(lists, q, i));
        }
      }
    }

    /** The first solution through option `r` is the first of all, if no smaller option leads to one. */
    lemma FirstAbove(prefix: seq<nat>, r: nat)
      requires |prefix| < |lists| && FirstWithin(lists, blocked, prefix + [r], picks)
      requires forall q | Solution(lists, blocked, q) && prefix <= q :: q[|prefix|] >= r
      ensures FirstWithin(lists, blocked, prefix, picks)
    {
      var n := |prefix|;
      assert picks[n] == (prefix + [r])[n] == r;
      assert prefix <= prefix + [r];
      forall q | Solution(lists, blocked, q) && prefix <= q ensures q == picks || Before(picks, q) {
        if q[n] == r {
          assert prefix + [r] <= q;
        } else {
          assert picks[..n] == prefix == q[..n] && picks[n] < q[n];
        }
      }
    }
  }

  // ---- Choosing sections ----

  /** The options of a course in its planned term, in the order they were given. */
  function OptionsFor(options: seq<SectionOption>, code: string, term: int): seq<SectionOption> {
    if options == [] then [] else
    var front, last := OptionsFor(options[..|options| - 1], code, term), options[|options| - 1];
    if last.courseCode == code && last.termIndex == term then front + [last] else front
  }

  lemma {:induction false} OptionsForMembers(options: seq<SectionOption>, code: string, term: int, o: SectionOption)
    ensures o in OptionsFor(options, code, term) <==> o in options && o.courseCode == code && o.termIndex == term
  {
    if options != [] {
      OptionsForMembers(options[..|options| - 1], code, term, o);
      assert options == options[..|options| - 1] + [options[|options| - 1]];
    }
  }

  /** The sort key of options: known times first, then by section id. */
  predicate OptionLeq(a: SectionOption, b: SectionOption) {
    if HasUnknownMeetings(a) == HasUnknownMeetings(b) then StrLeq(a.sectionId, b.sectionId) else !HasUnknownMeetings(a)
  }

  function PlannedCodes(planned: seq<(string, int)>): seq<string> {
    seq(|planned|, i requires 0 <= i < |planned| => planned[i].0)
  }

  function FewestFirst(options: seq<SectionOption>): ((string, int), (string, int)) -> bool {
    (a: (string, int), b: (string, int)) => |OptionsFor(options, a.0, a.1)| <= |OptionsFor(options, b.0, b.1)|
  }

  /** The planned courses, those with the fewest options first. */
  function SearchOrder(planned: seq<(string, int)>, options: seq<SectionOption>): seq<(string, int)> {
    SortBy(planned, FewestFirst(options))
  }

  function SearchLists(order: seq<(string, int)>, options: seq<SectionOption>): Lists {
    seq(|order|, i requires 0 <= i < |order| => SortBy(OptionsFor(options, order[i].0, order[i].1), OptionLeq))
  }

  /** One option per planned course, in the planned term, without conflicts. */
  ghost predicate Schedule(
    planned: seq<(string, int)>, options: seq<SectionOption>, blocked: seq<Meeting>,
    choice: map<string, SectionOption>)
  {
    && choice.Keys == SetOf(PlannedCodes(planned))
    && (forall p | p in planned ::
      p.0 in choice && choice[p.0] in options && choice[p.0].courseCode == p.0 && choice[p.0].termIndex == p.1)
    && (forall c | c in choice :: !Blocked(choice[c], blocked))
    && (forall c, d | c in choice && d in choice && c != d :: !Conflicts(choice[c], choice[d]))
  }

  /** The dictionary a list of entries builds. */
  function AsMap<V>(entries: seq<(string, V)>): map<string, V> {
    if entries == [] then map[] else
    AsMap(entries[..|entries| - 1])[entries[|entries| - 1].0 := entries[|entries| - 1].1]
  }

  ghost predicate DistinctKeys<V>(entries: seq<(string, V)>) {
    forall i, j | 0 <= i < j < |entries| :: entries[i].0 != entries[j].0
  }

  lemma {:induction false} AsMapLooksUp<V>(entries: seq<(string, V)>)
    requires DistinctKeys(entries)
    ensures forall i | 0 <= i < |entries| ::
      entries[i].0 in AsMap(entries) && AsMap(entries)[entries[i].0] == entries[i].1
    ensures forall c | c in AsMap(entries) :: exists i :: 0 <= i < |entries| && entries[i].0 == c
  {
    if entries != [] {
      var front := entries[..|entries| - 1];
      AsMapLooksUp(front);
      forall c | c in AsMap(entries) ensures exists i :: 0 <= i < |entries| && entries[i].0 == c {
        if c in AsMap(front) {
          var i :| 0 <= i < |front| && front[i].0 == c;
          assert entries[i].0 == c;
        } else {
          assert entries[|entries| - 1].0 == c;
        }
      }
    }
  }

  /** The entries `selected` holds for a vector of picks. */
  ghost function Picked(order: seq<(string, int)>, lists: Lists, picks: seq<nat>): Selection
    requires |order| == |lists| == |picks| && InRange(lists, picks)
  {
    seq(|picks|, i requires 0 <= i < |picks| => (order[i].0, Chosen(lists, picks, i)))
  }

  /** `selected` is the first conflict-free selection in search order. */
  ghost predicate IsFirst(
    planned: seq<(string, int)>, options: seq<SectionOption>, blocked: seq<Meeting>, selected: Selection)
  {
    var order := SearchOrder(planned, options);
    var lists := SearchLists(order, options);
    exists picks ::
      FirstWithin(lists, blocked, [], picks) && |order| == |lists| && selected == Picked(order, lists, picks)
  }

  predicate TimesKnown(o: SectionOption) {
    o.asynchronous || forall m | m in o.meetings :: m.known
  }

  /** `a` stands before `b`: its times are known and those of `b` are not, or both alike and by section id. */
  predicate Preferred(a: SectionOption, b: SectionOption) {
    && (TimesKnown(b) ==> TimesKnown(a))
    && (TimesKnown(a) == TimesKnown(b) ==> a.sectionId == b.sectionId || !StrLeq(b.sectionId, a.sectionId))
  }

  /** Fewest options first; within a course, options with known times first, then by section id. */
  lemma SearchOrderSorts(planned: seq<(string, int)>, options: seq<SectionOption>)
    ensures var order := SearchOrder(planned, options);
      && (forall i, j | 0 <= i < j < |order| ::
        |OptionsFor(options, order[i].0, order[i].1)| <= |OptionsFor(options, order[j].0, order[j].1)|)
      && forall i | 0 <= i < |order| :: SortedBy(SearchLists(order, options)[i], Preferred)
  {
    SortBySorts(planned, FewestFirst(options));
    OptionLeqOrders();
    forall o: (string, int) ensures SortedBy(SortBy(OptionsFor(options, o.0, o.1), OptionLeq), Preferred) {
      var list := SortBy(OptionsFor(options, o.0, o.1), OptionLeq);
      SortBySorts(OptionsFor(options, o.0, o.1), OptionLeq);
      forall i, j | 0 <= i < j < |list| ensures Preferred(list[i], list[j]) {
        OptionLeqPrefers(list[i], list[j]);
      }
    }
  }

  lemma OptionLeqPrefers(a: SectionOption, b: SectionOption)
    requires OptionLeq(a, b)
    ensures Preferred(a, b)
  {
    StrLeqTotal(a.sectionId, b.sectionId);
  }

  lemma OptionLeqOrders()
    ensures TotalPreorder(OptionLeq)
  {
    forall a, b ensures OptionLeq(a, b) || OptionLeq(b, a) {
      StrLeqTotal(a.sectionId, b.sectionId);
    }
    forall a, b, c | OptionLeq(a, b) && OptionLeq(b, c) ensures OptionLeq(a, c) {
      if HasUnknownMeetings(a) == HasUnknownMeetings(b) == HasUnknownMeetings(c) {
        StrLeqTransitive(a.sectionId, b.sectionId, c.sectionId);
      }
    }
  }

  /** The search order visits every planned course once, and its lists hold exactly the usable options. */
  lemma SearchSpace(planned: seq<(string, int)>, options: seq<SectionOption>)
    requires DistinctKeys(planned)
    ensures var order := SearchOrder(planned, options);
      && DistinctKeys(order) && |order| == |planned| && (forall p :: p in order <==> p in planned)
      && forall i, o | 0 <= i < |order| :: o in SearchLists(order, options)[i] <==>
        o in options && o.courseCode == order[i].0 && o.termIndex == order[i].1
  {
    var order := SearchOrder(planned, options);
    SortByPermutes(planned, FewestFirst(options));
    assert Distinct(planned);
    DistinctAfterSort(planned, FewestFirst(options));
    forall i, j | 0 <= i < j < |order| ensures order[i].0 != order[j].0 {
      assert order[i] in order && order[j] in order;
      assert order[i] != order[j];
    }
    forall i, o | 0 <= i < |order|
      ensures o in SearchLists(order, options)[i] <==>
        o in options && o.courseCode == order[i].0 && o.termIndex == order[i].1
    {
      SortByPermutes(OptionsFor(options, order[i].0, order[i].1), OptionLeq);
      OptionsForMembers(options, order[i].0, order[i].1, o);
    }
  }

  lemma SolutionIsSchedule(
    planned: seq<(string, int)>, options: seq<SectionOption>, blocked: seq<Meeting>, picks: seq<nat>)
    requires DistinctKeys(planned)
    requires Solution(SearchLists(SearchOrder(planned, options), options), blocked, picks)
    ensures var order := SearchOrder(planned, options);
      DistinctKeys(Picked(order, SearchLists(order, options), picks))
      && Schedule(planned, options, blocked, AsMap(Picked(order, SearchLists(order, options), picks)))
  {
    var order := SearchOrder(planned, options);
    var lists := SearchLists(order, options);
    SearchSpace(planned, options);
    forall i | 0 <= i < |picks|
      ensures Chosen(lists, picks, i) in options && Chosen(lists, picks, i).courseCode == order[i].0
      ensures Chosen(lists, picks, i).termIndex == order[i].1
    {
      assert Chosen(lists, picks, i) in lists[i];
    }
    SelectionIsSchedule(planned, options, blocked, order, Picked(order, lists, picks));
  }

  /** A compatible selection over a permutation of the plan is a schedule. */
  lemma SelectionIsSchedule(
    planned: seq<(string, int)>, options: seq<SectionOption>, blocked: seq<Meeting>, order: seq<(string, int)>,
    selected: Selection)
    requires DistinctKeys(order) && (forall p :: p in order <==> p in planned)
    requires |selected| == |order| && forall i | 0 <= i < |order| :: selected[i].0 == order[i].0
    requires forall i | 0 <= i < |order| ::
      selected[i].1 in options && selected[i].1.courseCode == order[i].0 && selected[i].1.termIndex == order[i].1
      && !Blocked(selected[i].1, blocked)
    requires forall i, j | 0 <= i < j < |order| :: !Conflicts(selected[j].1, selected[i].1)
    ensures DistinctKeys(selected) && Schedule(planned, options, blocked, AsMap(selected))
  {
    AsMapLooksUp(selected);
    hide AsMap, Conflicts, Blocked;
    var choice := AsMap(selected);
    KeysArePlanned(planned, order, selected);
    forall p | p in planned
      ensures p.0 in choice && choice[p.0] in options && choice[p.0].courseCode == p.0 && choice[p.0].termIndex == p.1
    {
      var i := IndexOf(order, p);
      assert selected[i].0 == p.0;
    }
    forall c | c in choice ensures !Blocked(choice[c], blocked) {
      var i :| 0 <= i < |selected| && selected[i].0 == c;
    }
    forall c, d | c in choice && d in choice && c != d ensures !Conflicts(choice[c], choice[d]) {
      Compatible(selected, c, d);
    }
  }

  lemma Compatible(selected: Selection, c: string, d: string)
    requires DistinctKeys(selected) && c in AsMap(selected) && d in AsMap(selected) && c != d
    requires forall i, j | 0 <= i < j < |selected| :: !Conflicts(selected[j].1, selected[i].1)
    ensures !Conflicts(AsMap(selected)[c], AsMap(selected)[d])
  {
    AsMapLooksUp(selected);
    hide AsMap, Conflicts;
    var i :| 0 <= i < |selected| && selected[i].0 == c;
    var j :| 0 <= j < |selected| && selected[j].0 == d;
    ConflictsSymmetric(selected[i].1, selected[j].1);
  }

  lemma KeysArePlanned(planned: seq<(string, int)>, order: seq<(string, int)>, selected: Selection)
    requires forall p :: p in order <==> p in planned
    requires |selected| == |order| && forall i | 0 <= i < |order| :: selected[i].0 == order[i].0
    requires DistinctKeys(selected)
    ensures AsMap(selected).Keys == SetOf(PlannedCodes(planned))
  {
    AsMapLooksUp(selected);
    hide AsMap;
    forall c | c in AsMap(selected) ensures c in PlannedCodes(planned) {
      var i :| 0 <= i < |selected| && selected[i].0 == c;
      assert order[i] in order;
      var j :| 0 <= j < |planned| && planned[j] == order[i];
      assert PlannedCodes(planned)[j] == c;
    }
    forall c | c in PlannedCodes(planned) ensures c in AsMap(selected) {
      var j :| 0 <= j < |planned| && PlannedCodes(planned)[j] == c;
      assert planned[j] in planned;
      var i :| 0 <= i < |order| && order[i] == planned[j];
    }
  }

  ghost function IndexOf<T>(xs: seq<T>, x: T): nat
    requires x in xs
  {
    var i :| 0 <= i < |xs| && xs[i] == x;
    i
  }

  lemma ScheduleIsSolution(
    planned: seq<(string, int)>, options: seq<SectionOption>, blocked: seq<Meeting>,
    choice: map<string, SectionOption>)
    requires DistinctKeys(planned) && Schedule(planned, options, blocked, choice)
    ensures exists picks :: Solution(SearchLists(SearchOrder(planned, options), options), blocked, picks)
  {
    var order := SearchOrder(planned, options);
    var lists := SearchLists(order, options);
    SearchSpace(planned, options);
    assert forall i | 0 <= i < |order| :: order[i] in planned && choice[order[i].0] in lists[i];
    var picks := seq(|order|, i requires 0 <= i < |order| => IndexOf(lists[i], choice[order[i].0]));
    assert forall i | 0 <= i < |order| :: Chosen(lists, picks, i) == choice[order[i].0];
    assert Solution(lists, blocked, picks);
  }

  /** Whether some planned course has no option in its term. */
  ghost predicate Missing(planned: seq<(string, int)>, options: seq<SectionOption>, code: string) {
    exists p :: p in planned && p.0 == code && OptionsFor(options, p.0, p.1) == []
  }

  lemma MissingIsInfeasible(
    planned: seq<(string, int)>, options: seq<SectionOption>, blocked: seq<Meeting>,
    choice: map<string, SectionOption>)
    requires Schedule(planned, options, blocked, choice)
    ensures forall code :: !Missing(planned, options, code)
  {
    forall p | p in planned ensures OptionsFor(options, p.0, p.1) != [] {
      OptionsForMembers(options, p.0, p.1, choice[p.0]);
    }
  }

  method MissingCourses(planned: seq<(string, int)>, options: seq<SectionOption>) returns (clashes: seq<Clash>)
    ensures forall clash :: clash in clashes <==> clash.NoOption? && Missing(planned, options, clash.code)
  {
    clashes := [];
    for i := 0 to |planned|
      invariant forall clash :: clash in clashes <==>
        clash.NoOption? && exists k ::
          0 <= k < i && planned[k].0 == clash.code && OptionsFor(options, planned[k].0, planned[k].1) == []
    {
      if OptionsFor(options, planned[i].0, planned[i].1) == [] {
        clashes := clashes + [NoOption(planned[i].0)];
      }
    }
  }

  method ChooseSections(planned: seq<(string, int)>, options: seq<SectionOption>, blocked: seq<Meeting>)
    returns (result: ScheduleResult)
    requires DistinctKeys(planned)
    ensures result.status == Feasible || result.status == Infeasible
    ensures result.status == Feasible <==> exists choice :: Schedule(planned, options, blocked, choice)
    ensures result.status == Feasible ==>
      result.conflicts == [] && Schedule(planned, options, blocked, AsMap(result.selected))
      && IsFirst(planned, options, blocked, result.selected)
    ensures result.status == Feasible ==> forall code :: code in result.unknown <==>
      exists i :: 0 <= i < |result.selected| && result.selected[i].0 == code && HasUnknownMeetings(result.selected[i].1)
    ensures result.status == Infeasible ==> result.selected == [] && result.conflicts != []
    ensures forall code :: NoOption(code) in result.conflicts <==> Missing(planned, options, code)
  {
    var missing := MissingCourses(planned, options);
    if missing != [] {
      assert missing[0] in missing;
      forall choice ensures !Schedule(planned, options, blocked, choice) {
        if Schedule(planned, options, blocked, choice) {
          MissingIsInfeasible(planned, options, blocked, choice);
        }
      }
      return ScheduleResult(Infeasible, [], missing, []);
    }
    forall code ensures !Missing(planned, options, code) {
      assert NoOption(code) !in missing;
    }
    var order := SearchOrder(planned, options);
    var lists := SearchLists(order, options);
    var search := new SectionSearch(seq(|order|, i requires 0 <= i < |order| => order[i].0), lists, blocked);
    var found := search.Search(0);
    if !found {
      forall q ensures !Solution(lists, blocked, q) {
        assert [] <= q;
      }
      forall choice ensures !Schedule(planned, options, blocked, choice) {
        if Schedule(planned, options, blocked, choice) {
          ScheduleIsSolution(planned, options, blocked, choice);
        }
      }
      return ScheduleResult(Infeasible, [], [NoCombination], []);
    }
    var checked := ValidateSchedule(search.selected, AsMap(planned), blocked);
    assert search.selected == Picked(order, lists, search.picks);
    SolutionIsSchedule(planned, options, blocked, search.picks);
    ScheduleIsOk(planned, options, blocked, search.selected);
    result := ScheduleResult(Feasible, checked.selected, checked.conflicts, checked.unknown);
  }

  /** The re-check of a schedule finds nothing to object to. */
  lemma ScheduleIsOk(
    planned: seq<(string, int)>, options: seq<SectionOption>, blocked: seq<Meeting>, selected: Selection)
    requires DistinctKeys(planned) && DistinctKeys(selected)
    requires Schedule(planned, options, blocked, AsMap(selected))
    ensures ScheduleOk(selected, AsMap(planned), blocked)
  {
    AsMapLooksUp(planned);
    AsMapLooksUp(selected);
    forall i | 0 <= i < |selected| ensures EntryOk(selected[i], AsMap(planned), blocked) {
      if selected[i].0 in AsMap(planned) {
        var p :| 0 <= p < |planned| && planned[p].0 == selected[i].0;
        assert planned[p] in planned;
      }
    }
  }
}

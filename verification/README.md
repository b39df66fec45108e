# Verified model of Boiler Reviews

Boiler Reviews plans courses over terms and publishes course reviews. This Dafny project models its decision
logic and proves what that logic promises. `dafny verify dfyconfig.toml` checks all of it.

Objects whose methods update fields are classes here, loops are loops, and each such method is proved against a
specification function or relation; the properties are lemmas about those specifications.

| part | files | main result |
|---|---|---|
| Prerequisite language | `Ast`, `Parser`, `Grammar` | the parser decides the grammar; printing and parsing undo each other |
| Prerequisite graph | `Digraph`, `Tarjan`, `Bfs`, `Graph`, `Catalog`, `CatalogPlans`, `Eligibility` | cycle reports are the cyclic components; accepted catalogs can be layered and taken; shortest paths; honest three-valued verdicts |
| Planner | `PlanModel`, `Validator`, `ValidatorGap`, `Constraints`, `Compiler`, `PlanRules`, `PlanAllocation`, `BuildReports`, `PlanBuild`, `PlanAgreement`, `PlanGaps`, `Objectives`, `Optima`, `Oracle`, `SameVerdicts` | the constraint compiler preserves meaning; solutions of the built model are exactly the accepted plans; model and validator agree up to named differences, each with a witness; planner and catalog judge prerequisites alike; fallback statuses are exact |
| Sections | `Sections` | backtracking is sound, complete and finds the first schedule |
| Reviews | `Reviews`, `Aggregates`, `ReviewRuns`, `ReviewRights`, `Reconciliation`, `ReviewService`, `Query` | stored statistics equal the full scan after every run; repair converges; every revision is its owner's and every approval a moderator's; paging is exactly-once |
| Task queue | `Tasks`, `TaskQueue`, `TaskRuns` | fencing is safe over every interleaving; claims make progress and outcomes come from owners; exactly which cancellations take effect |
| Degree audit | `Audit` | no course is spent twice; complete audits have disjoint witnesses; exactly which lists make greedy spending miss an allocation |
| Rate limiter | `RateLimit` | exactly which requests are admitted; the window bound and exactly which clocks keep it; exact retry advice |

`Ordering` holds Python's `sorted`, string comparison, `dict.fromkeys` and `sum` with the facts used about them.

## How the model reads the code

- A constraint model is a list of integer domains and a list of constraints with enforcement literals; a solution is
  a valuation that satisfies them (`Constraints.Solves`). "`m1` is conservative over `m0`" means that every solution
  of `m0` extends to one of `m1`.
- Courses carry credits in thousandths. Python's `//` floors, and so does Dafny's `/` for a positive divisor.
- A request is one atomic transaction: an operation that raises leaves the tables as they were. The one exception the
  code itself makes possible, a heartbeat that writes a status and then raises, is modelled with both outcomes.
- Exceptions are `Result` values; the two internal assertions of the review service are error values in the
  specification (never returned, `Aggregates.ApplyKeeps`) and proof obligations in the methods.
- Identifiers are strings, clocks are parameters. Database rows come in no particular order: loops over them pick
  any next row.

## What the proofs show about the code

- A credit bound on a course raises `KeyError` while a later listed, not completed course is unregistered
  (src/boiler_reviews/planning/solver.py:87). `PlanBuild.BuildModel` says exactly when.
- The validator accepts a plan that breaks a prerequisite which is false through an OR without alternatives, since
  such a failure has no reasons to report. `Validator.ValidatorIsExact` is exact without such prerequisites, and
  `ValidatorGap.SlipsIffDead` shows that exactly the dead prerequisites are affected.
- Model and validator differ in three checks only the validator makes and in two ways of counting credits
  (`PlanAgreement.ModelSolutionsAreValid`, `PlanAgreement.ValidPlansAreSolutions`). `PlanGaps` holds a concrete
  request and plan for each of the five.
- `validate_input` accepts repeated group ids. Flags are kept by id and course, so a later group replaces the flag of
  an earlier one and the first group with the id decides whether the kept flag counts. Exclusive use is then decided
  exactly under the condition of `PlanRules.FlagRuleIffExclusive`; `PlanGaps.RepeatedIdsShare` loses it.
- The earliest-completion objective posted to the solver weights each course by its credits, the enumeration does
  not. They rank plans alike (`Objectives.SameOrderIffUniform`) and have the same best plans in all requests
  (`Optima.SameBestIffUniform`) if and only if all courses have the same credits.
- The duplicate policy allows a new contribution after a rejected one, the unique constraint on account, course and
  term never does (`ReviewRuns.ResubmissionIsRefused`).
- The transition matrix contains `submitted` and `rejected` to `draft`, which the publication document does not list
  in full. No operation uses them; one that did would leave stale statistics (`ReviewRuns.ReturnToDraftWouldDrift`).
- The publication document calls a rejected review not public, while the full scan counts an approved revision of a
  rejected review. The model follows the code: `ReviewRuns.RejectedCounts`, and `ReviewRuns.RejectedMayCount` reaches
  such a review.
- A queued task whose cancellation is requested stays queued forever: it is not claimed and recovery does not see it
  (`Tasks.CancelledNeverRuns`). For a running task the cancellation takes effect, at the latest when recovery runs
  after the lease has expired (`Tasks.CancelsIffNotQueued`).
- A course that is both completed and proposed can fill two slots of one requirement; this happens exactly when the
  two sets overlap (`Audit.CountsOnceIffDisjoint`).
- An exclusive group can spend a course that a later group needs although another allocation would serve all groups.
  This can happen exactly if the list of some exclusive group overlaps that of a later group without lying within it
  (`Audit.GreedyIsExact`).
- `consume` reads the clock before it takes the lock, so readings can arrive out of order. The window bound holds
  exactly as long as the clock does not go back and then return to an earlier reading (`RateLimit.BoundIffNoReturn`);
  what holds for any clock is `RateLimit.WindowBalance`.

## Model

| member | source | states |
|---|---|---|
| `Ast.FromDictInvertsAsDict` | src/boiler_reviews/catalog/ast.py:70-89 | Reading back the JSON form of any expression returns that expression. |
| `Ast.GradesCompare` | src/boiler_reviews/planning/validator.py:34-40 | One grade meets another exactly as they stand in the list A+, A, A-, B+, B, B-, C+, C, C-, D, F; every other letter stands beside the F. |
| `Parser.TokenParser.Accept` | src/boiler_reviews/catalog/parser.py:79-84 | Consumes the next token exactly if it has the wanted kind; otherwise nothing moves. |
| `Parser.TokenParser.Require` | src/boiler_reviews/catalog/parser.py:86-92 | As `Accept`, with an error when the kind is not there. |
| `Parser.TokenParser.Parse` | src/boiler_reviews/catalog/parser.py:94-99 | The whole-input parse: the reference parser applied to all remaining tokens, trailing tokens refused. |
| `Parser.TokenParser.ParseOr` | src/boiler_reviews/catalog/parser.py:101-105 | The loop over OR consumes and returns what the reference grammar function says, with the same first error. |
| `Parser.TokenParser.ParseAnd` | src/boiler_reviews/catalog/parser.py:107-111 | The same for AND. |
| `Parser.TokenParser.ParsePrimary` | src/boiler_reviews/catalog/parser.py:113-117 | The same for parentheses, COREQ lists and atoms. |
| `Parser.TokenParser.ParseCorequisites` | src/boiler_reviews/catalog/parser.py:118-124 | The COREQ branch of the primary parser: at least one item, comma separated, closed. |
| `Parser.TokenParser.ParseAtom` | src/boiler_reviews/catalog/parser.py:125-143 | The atom branch of the primary parser, with an optional grade after a course. |
| `Grammar.OrPhraseSound` | src/boiler_reviews/catalog/parser.py:101-143 | Whatever is accepted is the yield of a grammar tree that means the returned expression. |
| `Grammar.OrComplete` | src/boiler_reviews/catalog/parser.py:101-143 | Every well-shaped tree is parsed back to its meaning, leaving exactly what follows it. |
| `Grammar.ParserDecidesGrammar` | src/boiler_reviews/catalog/parser.py:94-143 | The parser returns `e` on a token list if and only if some grammar tree yields the list and means `e`; the grammar is therefore unambiguous. |
| `Grammar.ParseInvertsRender` | src/boiler_reviews/catalog/parser.py:94-143 | Parsing the parenthesised rendering of a normal form returns that normal form and consumes every token. |
| `Grammar.AcceptedIsNormal` | src/boiler_reviews/catalog/parser.py:94-143 | Every accepted token list denotes a normal form, renders to itself up to redundant parentheses, and parses the same after rendering. |
| `Grammar.AndBindsTighter` | src/boiler_reviews/catalog/parser.py:101-111 | For any three courses, "a AND b OR c" and "a OR b AND c" are read with AND first. |
| `Graph.EdgesAreReadings` | src/boiler_reviews/catalog/graph.py:51-63 | The edges of an expression are exactly the course readings inside it, co-requisite exactly below a COREQ. |
| `Graph.PrerequisiteGraph.WalkEdges` | src/boiler_reviews/catalog/graph.py:51-63 | Appends exactly the edges of the expression to the edge list, in order. |
| `Graph.PrerequisiteGraph.UnknownReferences` | src/boiler_reviews/catalog/graph.py:65-67 | Exactly the prerequisites of some edge that are not known courses. |
| `Graph.SccSearch.Visit` | src/boiler_reviews/catalog/graph.py:81-106 | One call of the depth-first visit: the shared stack below is untouched, low links bound every edge to it, popped sets are components. |
| `Graph.SccSearch.Finish` | src/boiler_reviews/catalog/graph.py:94-106 | A node whose low link equals its index pops exactly its strongly connected component. |
| `Graph.SccSearch.VisitAll` | src/boiler_reviews/catalog/graph.py:108-110 | Every node ends up numbered, with nothing left on the stack. |
| `Graph.PrerequisiteGraph.StrictCycles` | src/boiler_reviews/catalog/graph.py:69-111 | Terminates; the reports come in the order the components are popped, name exactly the strongly connected components that hold a cycle, and are empty if and only if the graph is acyclic. |
| `Tarjan.PopIsComponent` | src/boiler_reviews/catalog/graph.py:94-101 | The popped segment of the stack is a whole strongly connected component. |
| `Tarjan.PopKeeps` | src/boiler_reviews/catalog/graph.py:94-101 | Popping a component keeps the search invariant between stack, numbers and emitted components. |
| `Graph.ReportedIffCyclic` | src/boiler_reviews/catalog/graph.py:103-106 | A component is reported exactly if it contains a cycle (more than one node, or a self-loop). |
| `Graph.ReportMeans` | src/boiler_reviews/catalog/graph.py:102-106 | A report lists exactly the nodes of its component, each once in order, and exactly the relations of the edges inside; it is legitimate exactly if all of these are co-requisites. |
| `Graph.ReportsAreCyclicComponents` | src/boiler_reviews/catalog/graph.py:102-111 | The reports are exactly those of the strongly connected components that hold a cycle. |
| `Graph.ComponentsPartition` | src/boiler_reviews/catalog/graph.py:94-111 | Every node of an edge is in exactly one popped component. |
| `Graph.NoReportsIffAcyclic` | src/boiler_reviews/catalog/graph.py:69-111 | There is no report if and only if the graph is acyclic. |
| `Graph.PrerequisiteGraph.DependencyPath` | src/boiler_reviews/catalog/graph.py:113-127 | Returns a walk along dependent-to-prerequisite edges of minimum length, and none if and only if the target is unreachable. |
| `Bfs.Dequeue` | src/boiler_reviews/catalog/graph.py:119-122 | Taking the front of the queue keeps the breadth-first invariant: distances never decrease along the queue. |
| `Bfs.Enqueue` | src/boiler_reviews/catalog/graph.py:123-126 | A newly visited node enters with a shortest path. |
| `Bfs.Exhausted` | src/boiler_reviews/catalog/graph.py:119-127 | An empty queue means the visited nodes are all that is reachable. |
| `Catalog.EmissionRanks` | src/boiler_reviews/catalog/graph.py:102-106 | If no popped component has a strict edge inside, counting components from the last one popped numbers the courses along every edge, strictly on strict edges. |
| `Catalog.AcceptedIffRanked` | src/boiler_reviews/catalog/service.py:76-78 | There is no strict-cycle error if and only if courses can be numbered with rank(prerequisite) < rank(dependent) on strict edges and <= on co-requisite edges. |
| `Catalog.GraphEdgesRequire` | src/boiler_reviews/catalog/service.py:63-73 | The graph of a catalog has exactly the edges its prerequisite texts require. |
| `Catalog.RequiresMeans` | src/boiler_reviews/catalog/service.py:63-73 | A course requires another if and only if its last resolved text is the yield of a grammar tree whose meaning reads the other with that relation. |
| `Catalog.UnresolvedMeans` | src/boiler_reviews/catalog/parser.py:147-157 | The unresolved courses are exactly those with a text that is neither blank nor the yield of a grammar tree. |
| `Catalog.KnownReferences` | src/boiler_reviews/catalog/service.py:74-75 | No unknown-course error if and only if every course read by a prerequisite is in the catalog. |
| `Catalog.ValidateCatalog` | src/boiler_reviews/catalog/service.py:54-79 | The errors are exactly the faults there are: repeated codes, repeated terms, each unknown reference, each component with a strict cycle; none if and only if the catalog can also be layered. Unresolved texts are warned about and counted, every course is counted once. |
| `Catalog.CollectExpressions` | src/boiler_reviews/catalog/service.py:63-72 | The loop over courses collects the parsed expressions, the warnings and both counters. |
| `Catalog.CycleFindings` | src/boiler_reviews/catalog/service.py:76-78 | The loop over reported components lists exactly those with a strict edge inside, and nothing if and only if the catalog can be layered. |
| `CatalogPlans.RankedIffTakeable` | src/boiler_reviews/catalog/service.py:76-78 | For prerequisites made of courses and AND, a catalog passes the cycle check if and only if some plan takes every course with all its prerequisites in earlier terms. |
| `CatalogPlans.OnlyEdgesMatter` | src/boiler_reviews/catalog/graph.py:51-63 | Whether the planner finds a prerequisite met depends on the plan only through the edges of the graph: strict ones by an earlier term, co-requisites by the same term. |
| `CatalogPlans.OnlyReadCoursesMatter` | src/boiler_reviews/catalog/graph.py:51-63 | The eligibility verdict depends on a student's courses and grades only through the courses the graph has edges for. |
| `Eligibility.SatisfiedMeansHolds` | src/boiler_reviews/catalog/graph.py:130-168 | The verdict is "satisfied" exactly when the expression holds on the evidence. |
| `Eligibility.UnsatisfiedIsFinal` | src/boiler_reviews/catalog/graph.py:147-167 | An "unsatisfied" expression stays false under every further set of permissions and placements. |
| `Eligibility.VerdictsAreHonest` | src/boiler_reviews/catalog/graph.py:130-168 | "unsatisfied" if and only if no set of extra permissions and placements could satisfy the expression; "unknown" if and only if it does not hold now but some set would satisfy it. |
| `Eligibility.EvidenceNeverLowers` | src/boiler_reviews/catalog/graph.py:130-168 | More evidence never lowers a verdict, as long as completed courses keep at least their grade points. |
| `Eligibility.LowersNothingIffMore` | src/boiler_reviews/catalog/graph.py:130-168 | Going from one evidence to another lowers the verdict of no expression if and only if nothing is withdrawn and every completed course keeps at least its grade points. |
| `Eligibility.GradesMayLower` | src/boiler_reviews/catalog/graph.py:138-144 | A concrete grade change that lowers a verdict. |
| `SameVerdicts.PlannerAgreesWithCatalog` | src/boiler_reviews/catalog/graph.py:130-168 | Off a COREQ, and inside one, the planner finds a prerequisite met if and only if the eligibility check finds it satisfied on what the plan provides before (inside: in) that term. |
| `SameVerdicts.CorequisitesAgree` | src/boiler_reviews/planning/validator.py:54-56 | The same for a COREQ itself. |
| `SameVerdicts.PassingIsEligible` | src/boiler_reviews/planning/validator.py:82-85 | In every plan that passes the validator the eligibility check is satisfied for each taken course with a COREQ-free prerequisite that is not dead. |
| `PlanModel.ValidateInput` | src/boiler_reviews/planning/model.py:69-89 | The errors are exactly the faults there are: repeated codes or term indices, pins on unknown courses or terms, bad units, unknown groups and co-requisites. |
| `PlanModel.CheckPins` | src/boiler_reviews/planning/model.py:77-81 | The loop over pins lists an error for exactly the pins that name an unknown course or term. |
| `PlanModel.CheckCourses` | src/boiler_reviews/planning/model.py:82-88 | The loop over courses lists exactly the courses with bad units, an unknown group or an unknown co-requisite. |
| `PlanModel.SumUnits` | src/boiler_reviews/planning/validator.py:43-43 | The sum over dictionary entries is the order-free sum of units. |
| `PlanModel.HoldsMonotone` | src/boiler_reviews/planning/validator.py:42-44 | An expression that holds keeps holding when more credits are earned. |
| `Validator.EvaluateIsHolds` | src/boiler_reviews/planning/validator.py:24-57 | The truth value the recursive evaluation returns is the declarative truth of the expression on the plan. |
| `Validator.FalseHasReason` | src/boiler_reviews/planning/validator.py:24-57 | A false evaluation carries at least one reason unless the expression is dead (false through an OR without alternatives). |
| `Validator.ReasonsAreFalseLeaves` | src/boiler_reviews/planning/validator.py:24-57 | The reasons given are exactly those of the false leaves of the expression, whatever the verdict. |
| `Validator.DeadNeverHolds` | src/boiler_reviews/planning/validator.py:51-53 | A dead expression is false under every plan. |
| `Validator.ValidatePlan` | src/boiler_reviews/planning/validator.py:60-108 | The loops over assignment, terms and groups list exactly the violations there are, each once, with their contents; valid if and only if there is none. |
| `Validator.CheckPlacements` | src/boiler_reviews/planning/validator.py:66-88 | The loop over the assignment lists exactly the violations of pins, availability, exclusions, prerequisites and co-requisites. |
| `Validator.CheckWindows` | src/boiler_reviews/planning/validator.py:89-94 | The loop over terms lists exactly the terms whose floored credits leave their window. |
| `Validator.CheckGroups` | src/boiler_reviews/planning/validator.py:95-107 | The loop over groups lists exactly the missed minima, with the needed and found numbers, and the courses used in more than one exclusive group. |
| `Validator.ValidatorIsExact` | src/boiler_reviews/planning/validator.py:60-108 | Every plan that meets the declarative specification passes; without dead prerequisites a plan passes if and only if it meets it. |
| `ValidatorGap.DeadPrerequisiteIsAccepted` | src/boiler_reviews/planning/validator.py:82-85 | For every dead prerequisite there is a request with it in which the validator accepts a plan that violates it. |
| `ValidatorGap.SlipsIffDead` | src/boiler_reviews/planning/validator.py:82-85 | A prerequisite can make the validator pass a plan that breaks it if and only if the prerequisite is dead. |
| `ValidatorGap.EmptyAnyOfIsAccepted` | src/boiler_reviews/planning/validator.py:51-53 | The smallest case: an OR without alternatives. |
| `Constraints.ConservativeTransitive` | src/boiler_reviews/planning/solver.py:46-123 | Posting in steps that rule out no earlier solution rules out none in total. |
| `Constraints.GrownMeans` | src/boiler_reviews/planning/solver.py:46-123 | What it means to solve a model after fresh variables and constraints were added. |
| `Compiler.PlacedGadget` | src/boiler_reviews/planning/solver.py:59-69 | The two fresh Booleans of a course reference are forced to "selected and placed before (under COREQ: in) the target term", and can always be set. |
| `Compiler.CompoundGadget` | src/boiler_reviews/planning/solver.py:105-122 | The fresh Boolean of AND, OR and COREQ is forced to the conjunction or disjunction of its items, and can always be set, also for no items. |
| `Compiler.CreditGadget` | src/boiler_reviews/planning/solver.py:80-97 | The fresh Boolean of a credit bound is forced to "enough units earned before the target term", and can always be set. |
| `Compiler.ConstantGadget` | src/boiler_reviews/planning/solver.py:49-58 | A fresh Boolean fixed to a constant stands for an expression with that value. |
| `Compiler.PlacedMeans` | src/boiler_reviews/planning/solver.py:41-69 | The four constraints of a course reference hold exactly when its two Booleans equal "before (under COREQ: at) the target term" and "selected and before it". |
| `PlanBuild.Build.ExprBool` | src/boiler_reviews/planning/solver.py:46-123 | In every solution the returned variable equals the truth of the expression on the term values, and every earlier solution extends to the fresh variables; reports exactly the unresolvable leaves; fails exactly in a credit sum while a planned course is unregistered. |
| `PlanBuild.Build.CourseBool` | src/boiler_reviews/planning/solver.py:48-69 | The same for a course reference: completed, unknown or placed. |
| `PlanBuild.Build.CreditsBool` | src/boiler_reviews/planning/solver.py:80-97 | The same for a credit bound; the loop over courses sums one weighted Boolean per planned course. |
| `PlanBuild.Build.CompoundBool` | src/boiler_reviews/planning/solver.py:105-122 | The same for AND, OR and COREQ over compiled items. |
| `PlanBuild.Build.AddCourse` | src/boiler_reviews/planning/solver.py:130-153 | One turn of the course loop: if the solutions were exactly the rule-abiding assignments of the courses so far, they still are with this course. |
| `PlanBuild.Build.AddCourses` | src/boiler_reviews/planning/solver.py:130-153 | The whole course loop: fails exactly if some credit bound looks ahead, and otherwise leaves exactly the rule-abiding assignments. |
| `PlanBuild.Build.PostExclusion` | src/boiler_reviews/planning/solver.py:137-138 | Leaves exactly the assignments in which an excluded course is not taken. |
| `PlanBuild.Build.PostPin` | src/boiler_reviews/planning/solver.py:139-143 | Leaves exactly the assignments that respect the pin, through an assumed Boolean. |
| `PlanBuild.Build.PostAvailability` | src/boiler_reviews/planning/solver.py:144-147 | Leaves exactly the assignments that place the course in an available term. |
| `PlanBuild.Build.PostPrerequisite` | src/boiler_reviews/planning/solver.py:148-150 | Leaves exactly the assignments in which a selected course has its prerequisites, or fails as `ExprBool` does. |
| `PlanBuild.Build.PostCoRequisites` | src/boiler_reviews/planning/solver.py:151-153 | Leaves exactly the assignments in which two selected, already registered co-requisites share a term. |
| `PlanBuild.Build.PostWindow` | src/boiler_reviews/planning/solver.py:155-166 | Leaves exactly the assignments whose units stay in the window of one term. |
| `PlanBuild.Build.PostWindows` | src/boiler_reviews/planning/solver.py:154-167 | The same for all terms. |
| `PlanBuild.Build.PostGroup` | src/boiler_reviews/planning/solver.py:169-181 | One turn of the group loop: allocation flags for listed courses, minima only if some course is listed. |
| `PlanBuild.Build.PostExclusive` | src/boiler_reviews/planning/solver.py:182-185 | One turn of the exclusivity loop: at most one of the flags kept under ids whose first group is exclusive. |
| `PlanAllocation.GroupMeans` | src/boiler_reviews/planning/solver.py:178-181 | The posted group constraints say exactly that the allocation meets the minima. |
| `PlanAllocation.ColumnMeans` | src/boiler_reviews/planning/solver.py:182-185 | The "at most one" constraint of a course holds exactly if the allocation sets at most one flag that counts: the last flag under its group id, with the first group of that id exclusive. |
| `PlanAllocation.Assemble` | src/boiler_reviews/planning/solver.py:126-186 | The pieces together: solutions of the whole model are exactly the assignments with an allocation that meet every rule. |
| `PlanRules.FlagRuleIffExclusive` | src/boiler_reviews/planning/solver.py:182-185 | The flags that count keep a course to one exclusive group, for all allocations, if and only if the same pairs of groups compete for it as are both exclusive. |
| `PlanRules.DistinctIdsCount` | src/boiler_reviews/planning/solver.py:168-185 | With distinct group ids the flags that count are exactly those of the exclusive groups. |
| `PlanRules.AdmitsSound` | src/boiler_reviews/planning/solver.py:130-153 | Every solution after one more course obeys the rules of all courses so far. |
| `PlanRules.AdmitsComplete` | src/boiler_reviews/planning/solver.py:130-153 | Every rule-abiding assignment of the courses so far is the reading of a solution. |
| `PlanBuild.BuildModel` | src/boiler_reviews/planning/solver.py:126-186 | For distinct course codes the solutions of the built model are exactly the accepted assignments, also under repeated group ids; the build fails if and only if some credit bound looks ahead; otherwise `invalid` lists exactly the input errors and the leaves that cannot be decided. |
| `BuildReports.ReportsMean` | src/boiler_reviews/planning/solver.py:48-103 | The entries reported for courses are exactly those of leaves that cannot be decided: courses neither completed nor listed up to there, grades of courses not completed, permissions and placements not supplied. |
| `BuildReports.LooksAheadMeans` | src/boiler_reviews/planning/solver.py:80-90 | For distinct codes the build fails at a course exactly if its prerequisite has a credit bound and a course that is not completed is listed later. |
| `PlanAgreement.ModelSolutionsAreValid` | src/boiler_reviews/planning/validator.py:60-108 | A model solution passes the validator if and only if it passes the three checks the model does not make (co-requisites in other terms, double use, unserved groups); and so for the plan specification. |
| `PlanAgreement.ValidPlansAreSolutions` | src/boiler_reviews/planning/solver.py:126-186 | A valid total plan is a model solution if and only if exact credits stay in the caps, prerequisites hold without already completed listed courses and its courses can be allocated; the last always holds unless repeated group ids make a shareable group compete. |
| `PlanAgreement.WholePlansAreSolutions` | src/boiler_reviews/planning/solver.py:126-186 | With whole credits and no listed course completed, a valid total plan is a model solution if and only if it can be allocated, so always unless repeated group ids make a shareable group compete. |
| `PlanAgreement.ModelAgreesWithValidator` | src/boiler_reviews/planning/validator.py:60-108 | On plain requests model and validator admit exactly the same total plans. |
| `PlanAgreement.SolutionsAreValidatedPlans` | src/boiler_reviews/planning/solver.py:126-186 | End to end on plain requests: every solution of the posted constraints passes the validator, and every passing total plan is a solution. |
| `PlanGaps.CreditsLookAhead` | src/boiler_reviews/planning/solver.py:87-87 | A concrete request on which the credit sum reads a course that is not registered yet. |
| `PlanGaps.RoundedCapsDiffer` | src/boiler_reviews/planning/validator.py:90-94 | A concrete plan that passes the floored cap of the validator and breaks the exact cap of the model. |
| `PlanGaps.SplitCoRequisitesDiffer` | src/boiler_reviews/planning/solver.py:151-153 | With the co-requisite left out or in another term, listed later: the model admits the plan, the validator does not. |
| `PlanGaps.UnservedGroupsDiffer` | src/boiler_reviews/planning/solver.py:178-181 | With a group that has no listed course: the model admits a plan the validator does not. |
| `PlanGaps.SharedCoursesDiffer` | src/boiler_reviews/planning/solver.py:182-185 | With a course listed by two exclusive groups: the model admits a plan the validator does not. |
| `PlanGaps.CompletedCreditsDiffer` | src/boiler_reviews/planning/solver.py:83-94 | With a listed course that is already completed, under a credit bound: a plan meets the specification and the model rejects it. |
| `PlanGaps.RepeatedIdsShare` | src/boiler_reviews/planning/solver.py:174-185 | Two exclusive groups that ask for the same one course: under one id the model admits a plan, under two ids it admits none. |
| `PlanGaps.RepeatedIdsRefuse` | src/boiler_reviews/planning/solver.py:182-185 | With a shareable group under the id of an exclusive one the model rejects a valid plan. |
| `Objectives.SameOrderIffUniform` | src/boiler_reviews/planning/solver.py:213-222 | The posted earliest-completion objective orders all plans as the enumeration does if and only if all courses have the same credits. |
| `Optima.SameBestIffUniform` | src/boiler_reviews/planning/solver.py:211-222 | For given courses: in every earliest-completion request for which model and validator admit the same plans, the best plans of the posted objective are those of the enumeration, if and only if all courses have the same credits. |
| `Objectives.PreferencesAgree` | src/boiler_reviews/planning/solver.py:219-220 | The posted preference objective equals the one of the enumeration on every plan. |
| `Objectives.LeastBoundIsPeak` | src/boiler_reviews/planning/solver.py:213-218 | The least value the posted workload variable can take is the peak workload, or 0 for a negative one, and none beyond the bound of its domain. |
| `Objectives.BalanceAgrees` | src/boiler_reviews/planning/solver.py:213-218 | The posted balance objective equals the one of the enumeration if and only if the peak is between 0 and the domain bound. |
| `Oracle.ComputeObjective` | src/boiler_reviews/planning/oracle.py:19-27 | The loops compute the objective of the plan, for all three objectives. |
| `Oracle.WorkloadMeans` | src/boiler_reviews/planning/oracle.py:24-24 | For distinct codes the workload of a term is the sum of the hours of the listed courses placed in it. |
| `Oracle.PreferenceMeans` | src/boiler_reviews/planning/oracle.py:25-26 | For distinct codes the preference score is the sum of the scores of the listed courses taken. |
| `Oracle.ProductMembers` | src/boiler_reviews/planning/oracle.py:35-35 | The product holds exactly the tuples with one choice per position. |
| `Oracle.EnumerationRises` | src/boiler_reviews/planning/oracle.py:32-35 | With terms from 1 on the assignments are enumerated in lexicographic order, "not taken" first. |
| `Oracle.ValidIsEnumerated` | src/boiler_reviews/planning/oracle.py:30-39 | Every total plan the validator passes, with whatever integers for terms, is enumerated. |
| `Oracle.EnumerateOptimum` | src/boiler_reviews/planning/oracle.py:30-45 | The result is the first best valid plan in the order of enumeration among those checked; truncated exactly if the limit is reached. |
| `Oracle.FallbackSolve` | src/boiler_reviews/planning/solver.py:189-200 | "optimal" means valid and maximal among all valid total plans; "infeasible" means none exists; "unknown" occurs exactly after truncation; the attached verdict is valid. |
| `Sections.ConflictsSymmetric` | src/boiler_reviews/sections/scheduler.py:49-50 | The conflict relation is symmetric. |
| `Sections.OverlapsMeans` | src/boiler_reviews/sections/scheduler.py:17-20 | Two meetings that start before they end overlap if and only if some minute of one weekday lies in both. |
| `Sections.ConflictsMean` | src/boiler_reviews/sections/scheduler.py:49-50 | Two options conflict, and an option meets a blocked time, if and only if both are busy at some minute of one weekday. |
| `Sections.ValidateSchedule` | src/boiler_reviews/sections/scheduler.py:53-69 | The reported conflicts are exactly the wrong terms, blocked times and conflicting pairs there are, each once; none if and only if the selection is a schedule; the unknown list names exactly the courses with unknown meetings. |
| `Sections.SectionSearch.Search` | src/boiler_reviews/sections/scheduler.py:87-101 | The backtracking search over the mutated selection: success leaves the lexicographically first solution that continues the prefix; failure restores the selection and means there is none. |
| `Sections.SectionSearch.NoSolutionThrough` | src/boiler_reviews/sections/scheduler.py:92-95 | An option skipped for a conflict is in no solution that continues the prefix. |
| `Sections.SectionSearch.FirstAbove` | src/boiler_reviews/sections/scheduler.py:96-98 | The first solution through an option is the first of all when no earlier option leads to one. |
| `Sections.SearchOrderSorts` | src/boiler_reviews/sections/scheduler.py:84-91 | The search order: fewest options first, and within a course known times first, then section id. |
| `Sections.SearchSpace` | src/boiler_reviews/sections/scheduler.py:78-84 | Every planned course is visited once, and its list holds exactly its options in the planned term. |
| `Sections.SolutionIsSchedule` | src/boiler_reviews/sections/scheduler.py:87-101 | A vector of picks without conflicts is a schedule. |
| `Sections.ScheduleIsSolution` | src/boiler_reviews/sections/scheduler.py:87-101 | Every schedule is a vector of picks of the search. |
| `Sections.ChooseSections` | src/boiler_reviews/sections/scheduler.py:72-106 | "feasible" if and only if some one-option-per-course, right-term choice avoids all pairwise and blocked conflicts; the result is the first in search order, and the re-check finds no conflict in it. |
| `ReviewService.ReviewTables.AdjustAggregate` | src/boiler_reviews/reviews/stats.py:32-58 | Adds or takes away one revision in the row, creating a missing row; the assertion on a negative count becomes an obligation that every caller discharges. |
| `ReviewService.ReviewTables.RemoveEmptyAggregate` | src/boiler_reviews/reviews/stats.py:61-63 | Deletes the row exactly if its count is zero. |
| `ReviewService.ReviewTables.Transition` | src/boiler_reviews/reviews/service.py:189-215 | The status change with its statistics; refused exactly by the matrix, and no read of a missing revision or negative count can happen. |
| `ReviewService.ReviewTables.CreateReview` | src/boiler_reviews/reviews/service.py:74-104 | Validation, idempotent replay, duplicate policy and unique constraints in order; the new tables. |
| `ReviewService.ReviewTables.EditReview` | src/boiler_reviews/reviews/service.py:119-144 | Ownership, optimistic revision and withdrawn checks in order; a published review falls back to submitted and keeps its approved revision. |
| `ReviewService.ReviewTables.SubmitReview` | src/boiler_reviews/reviews/service.py:147-151 | Submission by the owner only. |
| `ReviewService.ReviewTables.ModerateReview` | src/boiler_reviews/reviews/service.py:154-177 | Moderation by a moderator only, to published, hidden or rejected only. |
| `ReviewService.ReviewTables.FullRecompute` | src/boiler_reviews/reviews/stats.py:66-85 | The loop over joined rows computes the order-free sums per course and term. |
| `ReviewService.ReviewTables.Reconcile` | src/boiler_reviews/reviews/stats.py:88-118 | Counts exactly the keys that disagree; with repair the table becomes the repaired table and `repaired` equals `mismatches`, without it nothing changes. |
| `Aggregates.TransitionAgrees` | src/boiler_reviews/reviews/service.py:189-215 | A permitted status change keeps the statistics equal to the full scan if and only if it does not send an approved review back to draft. |
| `Aggregates.TransitionAnswers` | src/boiler_reviews/reviews/service.py:180-191 | From a valid store a status change is refused only by the matrix; the missing-revision and negative-count assertions cannot fire. |
| `Aggregates.EditKeepsStatistics` | src/boiler_reviews/reviews/service.py:127-142 | A pending edit leaves the full scan of every course and term as it was. |
| `Aggregates.RetractAgrees` | src/boiler_reviews/reviews/stats.py:50-63 | Taking a contribution away leaves exactly the scan without it, and no row for an empty group. |
| `Aggregates.CreditAgrees` | src/boiler_reviews/reviews/stats.py:41-55 | Adding a contribution leaves exactly the scan with it. |
| `Aggregates.ApplyKeeps` | src/boiler_reviews/reviews/service.py:74-177 | Every create, edit, submit and moderate request keeps rows equal to the scan, and neither assertion fires. |
| `Aggregates.RunKeeps` | src/boiler_reviews/reviews/service.py:74-177 | So does every sequence of requests. |
| `Aggregates.ReachableStatistics` | src/boiler_reviews/reviews/stats.py:66-85 | After any sequence of requests from empty tables: a row exists exactly if some review contributes, it equals the full scan, and 1 <= count <= sum of overall <= 5 * count. |
| `Aggregates.StoredBounds` | src/boiler_reviews/reviews/stats.py:50-57 | Every stored sum lies within the rating scale for its count. |
| `ReviewRights.RowsCountPublic` | src/boiler_reviews/reviews/stats.py:69-80 | In a valid store a row exists if and only if some review of the course and term is published, submitted or rejected with an approved revision, and its count is the number of these. |
| `ReviewRights.RowsAreSums` | src/boiler_reviews/reviews/stats.py:81-84 | Each other column of the row is the sum of that rating over the approved revisions of these reviews. |
| `ReviewRights.UpdatesAreCounted` | src/boiler_reviews/reviews/stats.py:45-58 | A row counts its updates: one for a first publication, starting from one for a new row, and one for hiding a review. |
| `ReviewRuns.RunContinues` | src/boiler_reviews/reviews/service.py:74-177 | No sequence of requests removes a review, changes its owner, key or request id, rewrites a revision, lowers a revision number, withdraws a review or returns it to draft. |
| `ReviewRuns.RetriedCreation` | src/boiler_reviews/reviews/service.py:76-81 | A repeated creation with the same non-empty idempotency key answers with the first review and changes nothing, whatever happened in between. |
| `ReviewRuns.CreatesIff` | src/boiler_reviews/reviews/service.py:74-104 | A request adds a review if and only if its fields are valid, no review of the account for that course and term exists, and the request id is unused. |
| `ReviewRights.CreatedIsDraft` | src/boiler_reviews/reviews/service.py:84-104 | A creation that changes anything adds one draft of its author with the submitted fields as revision 1, and nothing else. |
| `ReviewRights.CreationIsRefused` | src/boiler_reviews/reviews/service.py:76-82 | A request id of somebody else and a second unrejected contribution are conflicts. |
| `ReviewRights.EditIff` | src/boiler_reviews/reviews/service.py:119-144 | An edit succeeds if and only if the fields are in range and the actor owns the review, names its current revision and it is not withdrawn; then it adds the next revision and sends a published review back to submitted. |
| `ReviewRights.SubmitIff` | src/boiler_reviews/reviews/service.py:147-151 | A submission succeeds if and only if the actor owns the review and it is a draft, rejected or published; only the status changes. |
| `ReviewRights.ModerateIff` | src/boiler_reviews/reviews/service.py:154-177 | A moderation succeeds if and only if a moderator publishes a submitted or hidden review, rejects a submitted one or hides a published one; publishing approves the current revision. |
| `ReviewRights.RefusalsAreNamed` | src/boiler_reviews/reviews/service.py:110-177 | Which error answers each refused edit, submission and moderation. |
| `ReviewRights.RunIsEntitled` | src/boiler_reviews/reviews/service.py:74-177 | In every sequence of requests each change was made by someone entitled to it: an author without a contribution yet, the owner with the current revision number, the owner, or a moderator. |
| `ReviewRights.RevisionsAreOwners` | src/boiler_reviews/reviews/service.py:74-144 | In every state reached, each revision was written by a request of the owner of its review, with these fields and this number. |
| `ReviewRights.ApprovalsAreModerators` | src/boiler_reviews/reviews/service.py:154-177 | In every state reached, each approved revision was published by a moderator while it was the current one. |
| `ReviewRights.CanBePublished` | src/boiler_reviews/reviews/service.py:27-34 | From every valid store at most one submission by the owner and one moderation publish the current revision of any review that is not withdrawn. |
| `ReviewRights.RevisionsInScale` | src/boiler_reviews/reviews/service.py:48-59 | In every state reached each revision names a professor and keeps the rating scales. |
| `ReviewRuns.ResubmissionIsRefused` | src/boiler_reviews/reviews/policy.py:32-34 | A new contribution after a rejected one passes the policy and is then refused by the unique constraint, whatever its request id, unless that id replays an earlier request. |
| `ReviewRuns.RejectedCounts` | src/boiler_reviews/reviews/stats.py:69-73 | In every valid store a rejected review is counted if and only if it has an approved revision. |
| `ReviewRuns.RejectedMayCount` | src/boiler_reviews/reviews/stats.py:69-73 | Such a rejected but counted review can be reached by requests. |
| `ReviewRuns.ReturnToDraftWouldDrift` | src/boiler_reviews/reviews/service.py:27-34 | A reachable review that the matrix may move to draft, after which a stored row would be stale. |
| `Reconciliation.NoMismatchIffAgrees` | src/boiler_reviews/reviews/stats.py:101-105 | No mismatch is found if and only if the table agrees with the scan. |
| `Reconciliation.RepairConverges` | src/boiler_reviews/reviews/stats.py:88-118 | From any table a repair leaves a table that agrees with the scan; a second run finds and changes nothing. |
| `Reconciliation.AgreeingRowsStay` | src/boiler_reviews/reviews/stats.py:103-104 | A table that agrees is left exactly as it is, update counters included. |
| `TaskQueue.TaskTable.EnqueueTask` | src/boiler_reviews/tasks/queue.py:22-30 | A known non-empty key answers with its task; otherwise a queued task is added, or the unique key is violated. |
| `TaskQueue.TaskTable.OldestEligible` | src/boiler_reviews/tasks/queue.py:35-46 | Finds an oldest task that may be claimed, and none exactly if there is none. |
| `TaskQueue.TaskTable.ClaimNext` | src/boiler_reviews/tasks/queue.py:33-53 | Claims an oldest eligible task with the next token; the lease returned owns it. |
| `TaskQueue.TaskTable.CheckOwned` | src/boiler_reviews/tasks/queue.py:56-62 | Passes exactly the leases that own their task. |
| `TaskQueue.TaskTable.SendHeartbeat` | src/boiler_reviews/tasks/queue.py:65-71 | Extends an owned lease; on a requested cancellation raises, with the status write committed or rolled back. |
| `TaskQueue.TaskTable.ReportProgress` | src/boiler_reviews/tasks/queue.py:74-77 | Stores clamped progress of an owned task. |
| `TaskQueue.TaskTable.FinishTask` | src/boiler_reviews/tasks/queue.py:80-89 | Succeeds with the result, or is cancelled without one if cancellation was requested. |
| `TaskQueue.TaskTable.FailTask` | src/boiler_reviews/tasks/queue.py:92-97 | Fails with the error, or is cancelled if cancellation was requested. |
| `TaskQueue.TaskTable.Cancel` | src/boiler_reviews/tasks/queue.py:100-109 | Only the owner cancels; a task that is over is returned unchanged. |
| `TaskQueue.TaskTable.ReconcileExpiredTasks` | src/boiler_reviews/ops/recovery.py:11-26 | Requeues or cancels exactly the running tasks whose lease has expired, and counts them. |
| `Tasks.StepKeeps` | src/boiler_reviews/tasks/queue.py:22-109 | Every operation keeps: token equals attempts, a result exactly on success, an issued lease for every running task, unique tokens, a requested cancellation never on a success or failure. |
| `Tasks.RunKeeps` | src/boiler_reviews/tasks/queue.py:22-109 | So does every interleaving of operations of any number of workers. |
| `Tasks.ReachableTasks` | src/boiler_reviews/tasks/queue.py:22-109 | The same in the terms of the protocol, for every state of every run from an empty table. |
| `TaskRuns.ClaimProgress` | src/boiler_reviews/tasks/queue.py:33-53 | While some task waits (queued, or running under an expired lease, and not to be cancelled) a claim issues exactly one new lease, of a waiting task, owned until now plus the seconds asked; it is the oldest live task if that waits. |
| `TaskRuns.EnqueuedWaits` | src/boiler_reviews/tasks/queue.py:22-30 | A task enqueued under a fresh id and key waits at any later time, and no other task changes. |
| `TaskRuns.RecoveredWaits` | src/boiler_reviews/ops/recovery.py:14-22 | Recovery queues every running task with an expired lease and no cancellation request, which then waits at any later time. |
| `TaskRuns.EnqueueIsIdempotent` | src/boiler_reviews/tasks/queue.py:22-30 | In every run a second request with the same key changes nothing, whatever became of the first task. |
| `TaskRuns.OwnerWrites` | src/boiler_reviews/tasks/queue.py:74-97 | What the owner reports is stored: progress cut to 0 to 100, the result with success, the error with failure, or the cancellation; no other task changes. |
| `TaskRuns.ResultsAreOwners` | src/boiler_reviews/tasks/queue.py:80-89 | In every run from an empty table each result was stored by the lease that owned the task at that step, with no cancellation requested. |
| `TaskRuns.ErrorsAreOwners` | src/boiler_reviews/tasks/queue.py:92-97 | The same for every error. |
| `TaskRuns.CancellationsAreAllowed` | src/boiler_reviews/tasks/queue.py:100-109 | In every run from an empty table each requested cancellation was asked for by the account of the task, or for a task without one, while it was queued or running. |
| `Tasks.OwnerIsUnique` | src/boiler_reviews/tasks/queue.py:56-62 | At any moment at most one lease ever issued for a task passes the ownership test: the last one. |
| `TaskRuns.OnlyIssuedOwn` | src/boiler_reviews/tasks/queue.py:56-62 | Only a lease that a claim issued to this worker passes the ownership test, and only while its task runs. |
| `Tasks.StaleForever` | src/boiler_reviews/tasks/queue.py:56-62 | A lease that once failed the ownership test never passes it again, in any continuation. |
| `Tasks.ClaimFencesOut` | src/boiler_reviews/tasks/queue.py:47-53 | A new claim owns the task and makes every earlier lease stale. |
| `Tasks.TerminalIsFinal` | src/boiler_reviews/tasks/queue.py:80-109 | A succeeded, failed or cancelled task never changes again. |
| `Tasks.CancelledNeverRuns` | src/boiler_reviews/tasks/queue.py:40-40 | After a cancellation request a task never succeeds, fails, is re-claimed or gets a result; if it was queued it stays queued forever. |
| `Tasks.RunCancels` | src/boiler_reviews/tasks/queue.py:65-97 | In every run, a running task with a requested cancellation stays running under the same lease expiry or is cancelled. |
| `Tasks.RecoveryCancels` | src/boiler_reviews/ops/recovery.py:14-22 | It is cancelled after any recovery later than that expiry. |
| `Tasks.CancelsIffNotQueued` | src/boiler_reviews/tasks/queue.py:100-109 | Once recovery has run after the expiry, a task with a requested cancellation is cancelled if and only if it was not queued. |
| `Tasks.LeaseIsExclusive` | src/boiler_reviews/tasks/queue.py:39-39 | With a nondecreasing clock, until a lease expires no claim, recovery or write of anyone else takes the task away. |
| `TaskRuns.ClaimLasts` | src/boiler_reviews/tasks/queue.py:47-53 | With a nondecreasing clock a new lease owns its task until now plus the seconds asked, unless its holder gives it up. |
| `TaskRuns.HeartbeatLasts` | src/boiler_reviews/tasks/queue.py:65-71 | So does an owned lease after a heartbeat. |
| `Query.DecodeInvertsEncode` | src/boiler_reviews/reviews/query.py:28-38 | Decoding inverts encoding, whatever characters the id holds. |
| `Query.DecodeRefuses` | src/boiler_reviews/reviews/query.py:31-37 | Only a non-empty text without separator is malformed; only an empty one starts from the top. |
| `Query.PageIsOk` | src/boiler_reviews/reviews/query.py:63-75 | A page is a strictly descending, complete run of the matching rows from its cursor to the next; it has a next cursor only when full. |
| `Query.PageIsFull` | src/boiler_reviews/reviews/query.py:61-75 | A page is as long as asked between 1 and 100, it has a next cursor if and only if matching rows remain, and its total is the number of matching rows. |
| `Query.WalkIsExactlyOnce` | src/boiler_reviews/reviews/query.py:63-75 | Following cursors to the end lists rows in strictly descending order and every row that matched throughout exactly once, whatever other rows appear or vanish. |
| `Query.WalkIsNewestFirst` | src/boiler_reviews/reviews/query.py:62-65 | Rows are listed by falling creation time, and those of one time by falling id in character order. |
| `Audit.AuditDegree` | src/boiler_reviews/planning/audit.py:32-82 | The loop over groups audits each group against what earlier exclusive groups have spent; credits and unresolved rules are collected. |
| `Audit.SelectionIsSound` | src/boiler_reviews/planning/audit.py:51-56 | A group takes only listed, available, unspent courses, for a non-negative minimum no more than that, and no course twice if completed and proposed courses are disjoint. |
| `Audit.NoDoubleSpend` | src/boiler_reviews/planning/audit.py:57-59 | A course taken by an exclusive group is never used by a later group. |
| `Audit.SatisfiedIsFull` | src/boiler_reviews/planning/audit.py:60-69 | "satisfied" means enough courses and credits, and not planned courses alone. |
| `Audit.EntryMeans` | src/boiler_reviews/planning/audit.py:51-80 | A known group is credited with the first available completed courses by code, then the first planned ones, up to its minimum; the missing numbers are the exact differences; it is pending exactly if it is not satisfied and a planned course counts. |
| `Audit.UnknownMeans` | src/boiler_reviews/planning/audit.py:47-50 | A group is reported unknown exactly if its rule is unresolved; it then takes nothing and lacks all it asks for. |
| `Audit.CompleteHasWitness` | src/boiler_reviews/planning/audit.py:27-29 | A complete audit has pairwise-disjoint sets of courses, one per exclusive group, each of the size of its minimum. |
| `Audit.GreedyIsExact` | src/boiler_reviews/planning/audit.py:46-62 | Whatever the minima, the credits and the disjoint completed and proposed courses, the audit finds enough courses for every known group whenever some allocation serves them all, if and only if the list of each exclusive group lies within the list of every later known group or is disjoint from it. |
| `Audit.NestedIsServed` | src/boiler_reviews/planning/audit.py:46-62 | The same group by group: a group in whose list those of the earlier exclusive groups are nested lacks nothing whenever some allocation serves all groups. |
| `Audit.AloneIffUncontended` | src/boiler_reviews/planning/audit.py:46-62 | For non-negative minima: every known group gets as many courses as its list alone would give it, if and only if no earlier exclusive group contends with a later group (the earlier minimum is not 0, the later one is positive and within its list, the lists overlap). |
| `Audit.UncontendedIsExact` | src/boiler_reviews/planning/audit.py:46-62 | A group that no earlier group contends with lacks courses exactly when its list holds too few available ones. |
| `Audit.GreedyMayStarve` | src/boiler_reviews/planning/audit.py:51-59 | A concrete case with completed courses only in which the greedy choice leaves a later group unsatisfied although an allocation exists. |
| `Audit.OverlapCountsTwice` | src/boiler_reviews/planning/audit.py:51-56 | In every audit with a course both completed and proposed, a group of two that lists only this course takes it twice and lacks nothing. |
| `Audit.CountsOnceIffDisjoint` | src/boiler_reviews/planning/audit.py:46-56 | No group ever takes a course twice if and only if completed and proposed courses are disjoint. |
| `RateLimit.TokenBucketLimiter.Consume` | src/boiler_reviews/identity/rate_limit.py:32-45 | Refills, decides and charges one bucket; refuses a non-positive cost; other keys are untouched and no bucket is overdrawn or overfull. |
| `RateLimit.WindowBalance` | src/boiler_reviews/identity/rate_limit.py:37-45 | For any clock: cost admitted in a window plus tokens left is at most a full bucket plus the refill over the time the clock moves forward. |
| `RateLimit.AdmittedIff` | src/boiler_reviews/identity/rate_limit.py:36-43 | From a full bucket, for any clock, a request is admitted if and only if no window that ends with it would take more than the capacity and the refill over the window. |
| `RateLimit.RemainingIsHeadroom` | src/boiler_reviews/identity/rate_limit.py:41-45 | `remaining` is the largest cost that would be admitted at once. |
| `RateLimit.ForwardTimeIsSpan` | src/boiler_reviews/identity/rate_limit.py:37-40 | The time the clock moves forward in a window is at least its length, and equal to it if and only if the clock does not go back within the window. |
| `RateLimit.WindowBound` | src/boiler_reviews/identity/rate_limit.py:37-45 | For any run on one key, cost admitted in any window of length T in which the clock does not go back is at most capacity + rate * T. |
| `RateLimit.BoundIffNoReturn` | src/boiler_reviews/identity/rate_limit.py:35-45 | For given clock readings, the window bound holds for all limiters, all costs and all windows between two readings in order, if and only if the clock never goes back and afterwards reaches a reading it had before. |
| `RateLimit.RetryMeans` | src/boiler_reviews/identity/rate_limit.py:41-45 | A denied request retried later succeeds if and only if its cost fits the bucket and enough time has passed. |
| `RateLimit.RetrySucceeds` | src/boiler_reviews/identity/rate_limit.py:44-45 | After `retry_after` the retry succeeds if and only if its cost is within the capacity. |
| `RateLimit.EarlyRetryFails` | src/boiler_reviews/identity/rate_limit.py:44-44 | The advice is at most one second late. |
| `RateLimit.BackwardClockRefills` | src/boiler_reviews/identity/rate_limit.py:38-40 | For every limiter a clock set back and forward again lets twice the capacity through within no time, more than the window bound. |

## Left out

- CP-SAT's search, time limits, seeds, bounds and assumption cores, and the alternatives `solve` asks for: a foreign solver. The meaning of the posted constraints and objectives is modelled; `term_members` and variable names are not.
- `explain_infeasibility` and all diagnostic texts; violations, errors and conflicts are values with their contents (course, term, group, credits); wording and order are not modelled.
- Tokenising: the regular expression, positions and the normalisation of course codes and grades. The parser starts from typed tokens, so two errors that differ only in position are one here.
- Ast.FromDictInvertsAsDict: the reader's `str()` and `int()` conversions of ill-typed JSON values are not modelled; such values are refused here.
- The reasons `evaluate` in the graph module attaches to its verdicts; the states are modelled.
- Floating point: grade points are integer thousandths as in the compiler, and the limiter's tokens and times are reals.
- RateLimit.TokenBucketLimiter.Consume: the lock, `forget` and `snapshot` are not modelled; the constructor's refusal of non-positive parameters is its precondition.
- Sections.ChooseSections: a blocked time is compared with each meeting of an option, which is the intent; the code passes a bare `Meeting` to `_conflicts`, which reads `.meetings` and would fail as soon as an option with a meeting is compared with a blocked time. Labels, capacity, linked groups and time zones of options play no part in the choice and are left out.
- ReviewService.ReviewTables.CreateReview: foreign keys and column lengths are taken to hold; the comment text and the stripping of blanks around names happen before the model.
- Audit events, outbox events and moderation records written beside a status change; the outbox and projections as a weaker copy of the lease pattern.
- Query.PageIsOk: which rows match a filter is an input of each page; the filters, the joins and the columns of an item are not modelled. Times print and parse back (`Query.Stamps`) by assumption on the library.
- `withdrawn` and the return to `draft` as operations: no public function performs them. They are in the matrix, and the status change is proved for them too.
- `TaskWorker.run_once`: the handlers and what a session caches between its calls.
- TaskQueue.TaskTable.ClaimNext: `skip_locked` is not modelled; claims are atomic, and ties in creation time are broken arbitrarily.
- SQL sessions, isolation and locking, Flask routes, command line, configuration, migrations, import, metrics, the web client.
- `course_statistics` (it filters differently from the aggregates), `rank_courses`, rating intervals, calendar export, catalog diffs and activation, votes and appeals: floating point or single-branch code that would add only easy members.
- Catalog.ValidateCatalog: the provenance text of edges (it does not affect the outcome) and the hashing, staging and storing of an accepted document are not modelled.

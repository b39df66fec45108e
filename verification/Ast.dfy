/** Success-or-error values for the exceptions the source raises. */
module Outcomes {
  datatype Option<+T> = None | Some(value: T)

  datatype Result<+T, +E> = Success(value: T) | Failure(error: E) {
    predicate IsFailure() {
      Failure?
    }

    function PropagateFailure<U>(): Result<U, E>
      requires Failure?
    {
      Failure(error)
    }

    function Extract(): T
      requires Success?
    {
      value
    }
  }
}

/** The prerequisite expression language and its JSON form. */
module Ast {
  import opened Outcomes

  datatype PredicateKind = Placement | Permission

  datatype Expr =
    | CourseRef(code: string)
    | AllOf(items: seq<Expr>)
    | AnyOf(items: seq<Expr>)
    | GradeAtLeast(course: string, grade: string)
    | CreditsAtLeast(credits: int)
    | Predicate(kind: PredicateKind, value: string)
    | CoRequisite(items: seq<Expr>)

  /** Letter grades in thousandths of a grade point; an unknown grade counts as zero. */
  function GradePoints(grade: string): nat {
    match grade
    case "A+" => 4300
    case "A" => 4000
    case "A-" => 3700
    case "B+" => 3300
    case "B" => 3000
    case "B-" => 2700
    case "C+" => 2300
    case "C" => 2000
    case "C-" => 1700
    case "D" => 1000
    case _ => 0
  }

  /** The letters that have points of their own, best first. */
  const LETTERS := ["A+", "A", "A-", "B+", "B", "B-", "C+", "C", "C-", "D", "F"]

  /** The place of a letter in the list; whatever is not listed stands beside the F. */
  function Place(grade: string): (k: nat)
    ensures k < |LETTERS| && (grade in LETTERS ==> LETTERS[k] == grade) && (grade !in LETTERS ==> LETTERS[k] == "F")
  {
    if k :| 0 <= k < |LETTERS| && LETTERS[k] == grade then k else 10
  }

  /** Grades compare by points exactly as they stand in the list. */
  lemma GradesCompare(grade: string, needed: string)
    ensures GradePoints(grade) >= GradePoints(needed) <==> Place(grade) <= Place(needed)
  {
    PointsAtPlace(grade);
    PointsAtPlace(needed);
  }

  lemma PointsAtPlace(grade: string)
    ensures GradePoints(grade) == [4300, 4000, 3700, 3300, 3000, 2700, 2300, 2000, 1700, 1000, 0][Place(grade)]
  {
    assert LETTERS[10] == "F";
    if grade !in LETTERS {
      forall k | 0 <= k < |LETTERS| ensures grade != LETTERS[k] {
      }
    }
  }

  datatype Json =
    | Text(text: string)
    | Number(number: int)
    | Array(elements: seq<Json>)
    | Object(fields: map<string, Json>)

  datatype JsonError = NotAnObject | MissingKey(key: string) | WrongType | GradeNotOnCourse | UnknownNode(name: string)

  function AsDict(e: Expr): Json {
    match e
    case CourseRef(code) => CourseDict(code)
    case AllOf(items) => Object(map["type" := Text("and"), "items" := Array(AsDicts(items))])
    case AnyOf(items) => Object(map["type" := Text("or"), "items" := Array(AsDicts(items))])
    case GradeAtLeast(course, grade) =>
      Object(map["type" := Text("grade"), "course" := CourseDict(course), "grade" := Text(grade)])
    case CreditsAtLeast(credits) => Object(map["type" := Text("credits"), "credits" := Number(credits)])
    case Predicate(kind, value) => Object(map["type" := Text(KindName(kind)), "value" := Text(value)])
    case CoRequisite(items) => Object(map["type" := Text("corequisite"), "items" := Array(AsDicts(items))])
  }

  function CourseDict(code: string): Json {
    Object(map["type" := Text("course"), "code" := Text(code)])
  }

  function AsDicts(items: seq<Expr>): seq<Json> {
    if items == [] then [] else [AsDict(items[0])] + AsDicts(items[1..])
  }

  function KindName(kind: PredicateKind): string {
    match kind
    case Placement => "placement"
    case Permission => "permission"
  }

  function TextField(fields: map<string, Json>, key: string): Result<string, JsonError> {
    if key !in fields then Failure(MissingKey(key))
    else if fields[key].Text? then Success(fields[key].text)
    else Failure(WrongType)
  }

  function NumberField(fields: map<string, Json>, key: string): Result<int, JsonError> {
    if key !in fields then Failure(MissingKey(key))
    else if fields[key].Number? then Success(fields[key].number)
    else Failure(WrongType)
  }

  function FromDict(v: Json): Result<Expr, JsonError> {
    if !v.Object? then Failure(NotAnObject)
    else if "type" !in v.fields || !v.fields["type"].Text? then Failure(UnknownNode(""))
    else
      var kind := v.fields["type"].text;
      if kind == "course" then
        var code :- TextField(v.fields, "code");
        Success(CourseRef(code))
      else if kind == "and" then
        var items :- ItemsOf(v);
        Success(AllOf(items))
      else if kind == "or" then
        var items :- ItemsOf(v);
        Success(AnyOf(items))
      else if kind == "grade" then
        if "course" !in v.fields then Failure(MissingKey("course")) else
        var course :- FromDict(v.fields["course"]);
        if !course.CourseRef? then Failure(GradeNotOnCourse) else
        var grade :- TextField(v.fields, "grade");
        Success(GradeAtLeast(course.code, grade))
      else if kind == "credits" then
        var credits :- NumberField(v.fields, "credits");
        Success(CreditsAtLeast(credits))
      else if kind == "placement" || kind == "permission" then
        var value :- TextField(v.fields, "value");
        Success(Predicate(if kind == "placement" then Placement else Permission, value))
      else if kind == "corequisite" then
        var items :- ItemsOf(v);
        Success(CoRequisite(items))
      else Failure(UnknownNode(kind))
  }

  /** `value.get("items", [])`, decoded element by element. */
  function ItemsOf(v: Json): Result<seq<Expr>, JsonError>
    requires v.Object?
    decreases v, 0
  {
    if "items" !in v.fields then Success([])
    else match v.fields["items"]
      case Array(elements) => FromDicts(elements)
      case _ => Failure(WrongType)
  }

  function FromDicts(elements: seq<Json>): Result<seq<Expr>, JsonError> {
    if elements == [] then Success([]) else
    var head :- FromDict(elements[0]);
    var tail :- FromDicts(elements[1..]);
    Success([head] + tail)
  }

  /** Reading back the JSON form of an expression returns that expression. */
  lemma {:induction false} FromDictInvertsAsDict(e: Expr)
    ensures FromDict(AsDict(e)) == Success(e)
  {
    match e
    case AllOf(items) => FromDictsInvertsAsDicts(items);
    case AnyOf(items) => FromDictsInvertsAsDicts(items);
    case CoRequisite(items) => FromDictsInvertsAsDicts(items);
    case GradeAtLeast(course, grade) => assert FromDict(CourseDict(course)) == Success(CourseRef(course));
    case _ =>
  }

  lemma {:induction false} FromDictsInvertsAsDicts(items: seq<Expr>)
    ensures FromDicts(AsDicts(items)) == Success(items)
  {
    if items != [] {
      FromDictInvertsAsDict(items[0]);
      FromDictsInvertsAsDicts(items[1..]);
      assert AsDicts(items)[0] == AsDict(items[0]) && AsDicts(items)[1..] == AsDicts(items[1..]);
      assert items == [items[0]] + items[1..];
    }
  }
}

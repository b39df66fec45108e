/**
 The documented prerequisite grammar as parse trees, and the two facts that make the parser its
 decision procedure: every accepted token list is the yield of a tree (soundness), and every tree
 is parsed back to its meaning (completeness, hence unambiguity).
 */
module Grammar {
  import opened Ast
  import opened Outcomes
  import opened Parser

  /** `Paren` records redundant parentheses: it has a yield of its own but no meaning of its own. */
  datatype Tree =
    | Single(token: Token)
    | Graded(code: string, letter: string)
    | Paren(inner: Tree)
    | Corequisites(parts: seq<Tree>)
    | Conjunction(parts: seq<Tree>)
    | Disjunction(parts: seq<Tree>)

  datatype Level = Operand | Conjunct | Phrase

  predicate Shaped(t: Tree, level: Level) {
    match t
    case Single(token) => token.CreditsToken? || token.PredicateToken? || token.CourseToken?
    case Graded(_, _) => true
    case Paren(inner) => Shaped(inner, Phrase)
    case Corequisites(parts) => |parts| >= 1 && forall i | 0 <= i < |parts| :: Shaped(parts[i], Phrase)
    case Conjunction(parts) =>
      level != Operand && |parts| >= 2 && forall i | 0 <= i < |parts| :: Shaped(parts[i], Operand)
    case Disjunction(parts) =>
      level == Phrase && |parts| >= 2 && forall i | 0 <= i < |parts| :: Shaped(parts[i], Conjunct)
  }

  function Yield(t: Tree): seq<Token> {
    match t
    case Single(token) => [token]
    case Graded(code, letter) => [CourseToken(code), GradeToken(letter)]
    case Paren(inner) => [LParen] + Yield(inner) + [RParen]
    case Corequisites(parts) => [CoreqToken, LParen] + YieldAll(parts, Comma) + [RParen]
    case Conjunction(parts) => YieldAll(parts, AndToken)
    case Disjunction(parts) => YieldAll(parts, OrToken)
  }

  function YieldAll(parts: seq<Tree>, separator: Token): seq<Token> {
    if parts == [] then []
    else if |parts| == 1 then Yield(parts[0])
    else Yield(parts[0]) + [separator] + YieldAll(parts[1..], separator)
  }

  function Meaning(t: Tree): Expr {
    match t
    case Single(CreditsToken(amount)) => CreditsAtLeast(amount)
    case Single(PredicateToken(kind, value)) => Predicate(kind, value)
    case Single(CourseToken(code)) => CourseRef(code)
    case Single(_) => AllOf([])
    case Graded(code, letter) => GradeAtLeast(code, letter)
    case Paren(inner) => Meaning(inner)
    case Corequisites(parts) => CoRequisite(Meanings(parts))
    case Conjunction(parts) => AllOf(Meanings(parts))
    case Disjunction(parts) => AnyOf(Meanings(parts))
  }

  function Meanings(parts: seq<Tree>): (r: seq<Expr>)
    ensures |r| == |parts|
  {
    if parts == [] then [] else [Meaning(parts[0])] + Meanings(parts[1..])
  }

  lemma {:induction false} MeaningsAppend(parts: seq<Tree>, t: Tree)
    ensures Meanings(parts + [t]) == Meanings(parts) + [Meaning(t)]
  {
    if parts != [] {
      MeaningsAppend(parts[1..], t);
      assert (parts + [t])[1..] == parts[1..] + [t];
    }
  }

  lemma {:induction false} YieldAppend(parts: seq<Tree>, separator: Token, t: Tree)
    requires parts != []
    ensures YieldAll(parts + [t], separator) == YieldAll(parts, separator) + [separator] + Yield(t)
  {
    assert (parts + [t])[1..] == parts[1..] + [t];
    if |parts| > 1 {
      YieldAppend(parts[1..], separator, t);
    }
  }

  lemma Regroup<T>(front: seq<T>, ts: seq<T>, separator: T, middle: seq<T>, rest: seq<T>)
    requires ts != [] && ts[0] == separator && ts[1..] == middle + rest
    ensures front + ts == front + [separator] + middle + rest
  {
    assert ts == [separator] + (middle + rest);
  }

  lemma AppendPart(parts: seq<Tree>, separator: Token, t: Tree, ts: seq<Token>, rest: seq<Token>)
    requires parts != [] && ts != [] && ts[0] == separator && ts[1..] == Yield(t) + rest
    ensures YieldAll(parts, separator) + ts == YieldAll(parts + [t], separator) + rest
    ensures Meanings(parts + [t]) == Meanings(parts) + [Meaning(t)]
  {
    MeaningsAppend(parts, t);
    YieldAppend(parts, separator, t);
    Regroup(YieldAll(parts, separator), ts, separator, Yield(t), rest);
  }

  // ---- Soundness: an accepted phrase is the yield of a tree that means the result ----

  lemma {:induction false} OrPhraseSound(ts: seq<Token>) returns (t: Tree)
    requires OrPhrase(ts).Success?
    ensures Shaped(t, Phrase) && Meaning(t) == OrPhrase(ts).value.0
    ensures ts == Yield(t) + OrPhrase(ts).value.1
    decreases |ts|, 2
  {
    t := AndPhraseSound(ts);
    var (first, rest) := AndPhrase(ts).value;
    var trees := OrTailSound([t], rest, [first]);
    assert ts == Yield(t) + rest && YieldAll([t], OrToken) == Yield(t);
    if |trees| == 1 {
      t := trees[0];
    } else {
      t := Disjunction(trees);
    }
  }

  lemma {:induction false} OrTailSound(trees: seq<Tree>, ts: seq<Token>, items: seq<Expr>) returns (all: seq<Tree>)
    requires trees != [] && items == Meanings(trees) && OrTail(items, ts).Success?
    requires forall i | 0 <= i < |trees| :: Shaped(trees[i], Conjunct)
    ensures all != [] && Meanings(all) == OrTail(items, ts).value.0
    ensures forall i | 0 <= i < |all| :: Shaped(all[i], Conjunct)
    ensures YieldAll(trees, OrToken) + ts == YieldAll(all, OrToken) + OrTail(items, ts).value.1
    decreases |ts|, 0
  {
    all := trees;
    if StartsWith(ts, OR) {
      var t := AndPhraseSound(ts[1..]);
      var (next, rest) := AndPhrase(ts[1..]).value;
      AppendPart(trees, OrToken, t, ts, rest);
      all := OrTailSound(trees + [t], rest, items + [next]);
    }
  }

  lemma {:induction false} AndPhraseSound(ts: seq<Token>) returns (t: Tree)
    requires AndPhrase(ts).Success?
    ensures Shaped(t, Conjunct) && Meaning(t) == AndPhrase(ts).value.0
    ensures ts == Yield(t) + AndPhrase(ts).value.1
    decreases |ts|, 1
  {
    t := PrimarySound(ts);
    var (first, rest) := Primary(ts).value;
    var trees := AndTailSound([t], rest, [first]);
    assert ts == Yield(t) + rest && YieldAll([t], AndToken) == Yield(t);
    if |trees| == 1 {
      t := trees[0];
      OperandIsConjunct(t);
    } else {
      t := Conjunction(trees);
    }
  }

  lemma OperandIsConjunct(t: Tree)
    requires Shaped(t, Operand)
    ensures Shaped(t, Conjunct) && Shaped(t, Phrase)
  {
  }

  lemma {:induction false} AndTailSound(trees: seq<Tree>, ts: seq<Token>, items: seq<Expr>) returns (all: seq<Tree>)
    requires trees != [] && items == Meanings(trees) && AndTail(items, ts).Success?
    requires forall i | 0 <= i < |trees| :: Shaped(trees[i], Operand)
    ensures all != [] && Meanings(all) == AndTail(items, ts).value.0
    ensures forall i | 0 <= i < |all| :: Shaped(all[i], Operand)
    ensures YieldAll(trees, AndToken) + ts == YieldAll(all, AndToken) + AndTail(items, ts).value.1
    decreases |ts|, 0
  {
    all := trees;
    if StartsWith(ts, AND) {
      var t := PrimarySound(ts[1..]);
      var (next, rest) := Primary(ts[1..]).value;
      AppendPart(trees, AndToken, t, ts, rest);
      all := AndTailSound(trees + [t], rest, items + [next]);
    }
  }

  lemma {:induction false} CommaTailSound(trees: seq<Tree>, ts: seq<Token>, items: seq<Expr>) returns (all: seq<Tree>)
    requires trees != [] && items == Meanings(trees) && CommaTail(items, ts).Success?
    requires forall i | 0 <= i < |trees| :: Shaped(trees[i], Phrase)
    ensures all != [] && Meanings(all) == CommaTail(items, ts).value.0
    ensures forall i | 0 <= i < |all| :: Shaped(all[i], Phrase)
    ensures YieldAll(trees, Comma) + ts == YieldAll(all, Comma) + CommaTail(items, ts).value.1
    decreases |ts|, 0
  {
    all := trees;
    if StartsWith(ts, COMMA) {
      var t := OrPhraseSound(ts[1..]);
      var (next, rest) := OrPhrase(ts[1..]).value;
      AppendPart(trees, Comma, t, ts, rest);
      all := CommaTailSound(trees + [t], rest, items + [next]);
    }
  }

  lemma {:induction false} PrimarySound(ts: seq<Token>) returns (t: Tree)
    requires Primary(ts).Success?
    ensures Shaped(t, Operand) && Meaning(t) == Primary(ts).value.0
    ensures ts == Yield(t) + Primary(ts).value.1
    decreases |ts|, 0
  {
    t := Single(ts[0]);
    match ts[0]
    case LParen =>
      var inner := OrPhraseSound(ts[1..]);
      t := Paren(inner);
      ParenYield(inner, ts);
    case CoreqToken =>
      t := CorequisitesSound(ts);
    case CourseToken(code) =>
      if StartsWith(ts[1..], GRADE) {
        t := Graded(code, ts[1].letter);
      }
    case _ =>
  }

  lemma ParenYield(inner: Tree, ts: seq<Token>)
    requires ts != [] && ts[0] == LParen && OrPhrase(ts[1..]).Success?
    requires ts[1..] == Yield(inner) + OrPhrase(ts[1..]).value.1 && StartsWith(OrPhrase(ts[1..]).value.1, RPAREN)
    ensures ts == Yield(Paren(inner)) + OrPhrase(ts[1..]).value.1[1..]
  {
    var rest := OrPhrase(ts[1..]).value.1;
    assert rest == [RParen] + rest[1..] && ts == [LParen] + ts[1..];
  }

  lemma {:induction false} CorequisitesSound(ts: seq<Token>) returns (t: Tree)
    requires Primary(ts).Success? && ts[0].CoreqToken?
    ensures Shaped(t, Operand) && Meaning(t) == Primary(ts).value.0
    ensures ts == Yield(t) + Primary(ts).value.1
    decreases |ts|, 0, 0
  {
    var first := OrPhraseSound(ts[2..]);
    var (item, rest) := OrPhrase(ts[2..]).value;
    var trees := CommaTailSound([first], rest, [item]);
    var rest' := CommaTail([item], rest).value.1;
    t := Corequisites(trees);
    CorequisitesYield(trees, ts, first, rest, rest');
  }

  lemma CorequisitesYield(trees: seq<Tree>, ts: seq<Token>, first: Tree, rest: seq<Token>, rest': seq<Token>)
    requires |ts| >= 2 && ts[0] == CoreqToken && ts[1] == LParen && ts[2..] == Yield(first) + rest
    requires YieldAll([first], Comma) + rest == YieldAll(trees, Comma) + rest'
    requires rest' != [] && rest'[0] == RParen
    ensures ts == Yield(Corequisites(trees)) + rest'[1..]
  {
    assert rest' == [RParen] + rest'[1..];
    assert ts == [CoreqToken, LParen] + (YieldAll(trees, Comma) + rest');
  }

  // ---- Completeness: a tree is parsed back, whatever may follow it ----

  /** What cannot be swallowed by a phrase of this level when it stands behind it. */
  predicate Follows(rest: seq<Token>, level: Level) {
    && !StartsWith(rest, GRADE)
    && (level != Operand ==> !StartsWith(rest, AND))
    && (level == Phrase ==> !StartsWith(rest, OR))
  }

  lemma {:induction false} PrimaryComplete(t: Tree, rest: seq<Token>)
    requires Shaped(t, Operand) && Follows(rest, Operand)
    ensures Primary(Yield(t) + rest) == Success((Meaning(t), rest))
    decreases t, 1
  {
    var ts := Yield(t) + rest;
    match t
    case Single(token) =>
      assert ts[1..] == rest;
    case Graded(_, _) =>
      assert ts[1..] == [ts[1]] + rest && ts[2..] == rest;
    case Paren(inner) =>
      OrComplete(inner, [RParen] + rest);
      assert ts[1..] == Yield(inner) + ([RParen] + rest);
    case Corequisites(parts) =>
      CorequisitesComplete(t, rest);
  }

  lemma {:induction false} CorequisitesComplete(t: Tree, rest: seq<Token>)
    requires t.Corequisites? && Shaped(t, Operand)
    ensures Primary(Yield(t) + rest) == Success((Meaning(t), rest))
    decreases t, 0
  {
    var ts, parts := Yield(t) + rest, t.parts;
    var closing := [RParen] + rest;
    var behind := YieldRest(parts, Comma) + closing;
    YieldSplit(parts, Comma);
    CorequisitesTokens(ts, Yield(parts[0]), YieldRest(parts, Comma), rest);
    OrComplete(parts[0], behind);
    assert parts[0..] == parts && Remaining(parts, 1, Comma) == YieldRest(parts, Comma);
    CommaTailComplete(parts, 1, closing);
    assert parts[..1] == [parts[0]] && Meanings(parts[..1]) == [Meaning(parts[0])];
    assert OrPhrase(ts[2..]) == Success((Meaning(parts[0]), behind));
    assert CommaTail([Meaning(parts[0])], behind) == Success((Meanings(parts), closing));
  }

  lemma CorequisitesTokens(ts: seq<Token>, first: seq<Token>, others: seq<Token>, rest: seq<Token>)
    requires ts == [CoreqToken, LParen] + (first + others) + [RParen] + rest
    ensures |ts| >= 2 && ts[0] == CoreqToken && ts[1..][0] == LParen
    ensures ts[2..] == first + (others + ([RParen] + rest))
    ensures ([RParen] + rest)[1..] == rest
  {
  }

  lemma {:induction false} AndComplete(t: Tree, rest: seq<Token>)
    requires Shaped(t, Conjunct) && Follows(rest, Conjunct)
    ensures AndPhrase(Yield(t) + rest) == Success((Meaning(t), rest))
    decreases t, 2
  {
    if t.Conjunction? {
      var parts := t.parts;
      YieldSplit(parts, AndToken);
      assert parts[0..] == parts && Remaining(parts, 1, AndToken) == YieldRest(parts, AndToken);
      PrimaryComplete(parts[0], YieldRest(parts, AndToken) + rest);
      assert Yield(t) + rest == Yield(parts[0]) + (YieldRest(parts, AndToken) + rest);
      AndTailComplete(parts, 1, rest);
      assert parts[..1] == [parts[0]] && Meanings(parts[..1]) == [Meaning(parts[0])];
    } else {
      PrimaryComplete(t, rest);
    }
  }

  lemma {:induction false} OrComplete(t: Tree, rest: seq<Token>)
    requires Shaped(t, Phrase) && Follows(rest, Phrase)
    ensures OrPhrase(Yield(t) + rest) == Success((Meaning(t), rest))
    decreases t, 3
  {
    if t.Disjunction? {
      var parts := t.parts;
      YieldSplit(parts, OrToken);
      assert parts[0..] == parts && Remaining(parts, 1, OrToken) == YieldRest(parts, OrToken);
      AndComplete(parts[0], YieldRest(parts, OrToken) + rest);
      assert Yield(t) + rest == Yield(parts[0]) + (YieldRest(parts, OrToken) + rest);
      OrTailComplete(parts, 1, rest);
      assert parts[..1] == [parts[0]] && Meanings(parts[..1]) == [Meaning(parts[0])];
    } else {
      AndComplete(t, rest);
    }
  }

  /** The yield behind the first part: each further part with its separator in front. */
  function YieldRest(parts: seq<Tree>, separator: Token): seq<Token>
    requires parts != []
  {
    if |parts| == 1 then [] else [separator] + YieldAll(parts[1..], separator)
  }

  lemma YieldSplit(parts: seq<Tree>, separator: Token)
    requires parts != []
    ensures YieldAll(parts, separator) == Yield(parts[0]) + YieldRest(parts, separator)
  {
  }

  /** The tokens behind the first `done` parts. */
  function Remaining(parts: seq<Tree>, done: nat, separator: Token): seq<Token>
    requires 1 <= done <= |parts|
  {
    YieldRest(parts[done - 1..], separator)
  }

  lemma RemainingStep(parts: seq<Tree>, done: nat, separator: Token, rest: seq<Token>)
    requires 1 <= done < |parts|
    ensures Remaining(parts, done, separator) + rest
            == [separator] + (Yield(parts[done]) + (Remaining(parts, done + 1, separator) + rest))
    ensures Meanings(parts[..done + 1]) == Meanings(parts[..done]) + [Meaning(parts[done])]
  {
    YieldSplit(parts[done..], separator);
    assert parts[done - 1..][1..] == parts[done..];
    MeaningsAppend(parts[..done], parts[done]);
    assert parts[..done + 1] == parts[..done] + [parts[done]];
  }

  lemma {:induction false} OrTailComplete(parts: seq<Tree>, done: nat, rest: seq<Token>)
    requires 1 <= done <= |parts| && Follows(rest, Phrase)
    requires forall i | 0 <= i < |parts| :: Shaped(parts[i], Conjunct)
    ensures OrTail(Meanings(parts[..done]), Remaining(parts, done, OrToken) + rest) == Success((Meanings(parts), rest))
    decreases parts, 3, |parts| - done
  {
    if done == |parts| {
      assert parts[..done] == parts;
      assert Remaining(parts, done, OrToken) + rest == rest;
    } else {
      RemainingStep(parts, done, OrToken, rest);
      var ts := Remaining(parts, done, OrToken) + rest;
      var behind := Remaining(parts, done + 1, OrToken) + rest;
      assert ts[1..] == Yield(parts[done]) + behind;
      AndComplete(parts[done], behind);
      assert StartsWith(ts, OR) && AndPhrase(ts[1..]) == Success((Meaning(parts[done]), behind));
      OrTailComplete(parts, done + 1, rest);
    }
  }

  lemma {:induction false} AndTailComplete(parts: seq<Tree>, done: nat, rest: seq<Token>)
    requires 1 <= done <= |parts| && Follows(rest, Conjunct)
    requires forall i | 0 <= i < |parts| :: Shaped(parts[i], Operand)
    ensures AndTail(Meanings(parts[..done]), Remaining(parts, done, AndToken) + rest) ==
      Success((Meanings(parts), rest))
    decreases parts, 3, |parts| - done
  {
    if done == |parts| {
      assert parts[..done] == parts;
      assert Remaining(parts, done, AndToken) + rest == rest;
    } else {
      RemainingStep(parts, done, AndToken, rest);
      var ts := Remaining(parts, done, AndToken) + rest;
      var behind := Remaining(parts, done + 1, AndToken) + rest;
      assert ts[1..] == Yield(parts[done]) + behind;
      PrimaryComplete(parts[done], behind);
      assert StartsWith(ts, AND) && Primary(ts[1..]) == Success((Meaning(parts[done]), behind));
      AndTailComplete(parts, done + 1, rest);
    }
  }

  lemma CommaFollows(parts: seq<Tree>, done: nat, rest: seq<Token>)
    requires 1 <= done <= |parts| && Follows(rest, Phrase)
    ensures Follows(Remaining(parts, done, Comma) + rest, Phrase)
  {
    if done == |parts| {
      assert Remaining(parts, done, Comma) + rest == rest;
    } else {
      assert (Remaining(parts, done, Comma) + rest)[0] == Comma;
    }
  }

  lemma {:induction false} CommaTailComplete(parts: seq<Tree>, done: nat, rest: seq<Token>)
    requires 1 <= done <= |parts| && Follows(rest, Phrase) && !StartsWith(rest, COMMA)
    requires forall i | 0 <= i < |parts| :: Shaped(parts[i], Phrase)
    ensures CommaTail(Meanings(parts[..done]), Remaining(parts, done, Comma) + rest) == Success((Meanings(parts), rest))
    decreases parts, 4, |parts| - done
  {
    if done == |parts| {
      assert parts[..done] == parts;
      assert Remaining(parts, done, Comma) + rest == rest;
    } else {
      var behind := Remaining(parts, done + 1, Comma) + rest;
      CommaFollows(parts, done + 1, rest);
      OrComplete(parts[done], behind);
      CommaTailStep(parts, done, rest, behind);
      CommaTailComplete(parts, done + 1, rest);
    }
  }

  lemma CommaTailStep(parts: seq<Tree>, done: nat, rest: seq<Token>, behind: seq<Token>)
    requires 1 <= done < |parts| && behind == Remaining(parts, done + 1, Comma) + rest
    requires OrPhrase(Yield(parts[done]) + behind) == Success((Meaning(parts[done]), behind))
    ensures CommaTail(Meanings(parts[..done]), Remaining(parts, done, Comma) + rest)
            == CommaTail(Meanings(parts[..done + 1]), behind)
  {
    RemainingStep(parts, done, Comma, rest);
    var ts := Remaining(parts, done, Comma) + rest;
    assert ts[0] == Comma && ts[1..] == Yield(parts[done]) + behind;
  }

  /** The parser accepts exactly the yields of trees, and returns what the tree means. */
  lemma ParserDecidesGrammar(ts: seq<Token>, e: Expr)
    ensures ParseAll(ts) == Success(e) <==> exists t :: Shaped(t, Phrase) && Yield(t) == ts && Meaning(t) == e
  {
    if ParseAll(ts) == Success(e) {
      var t := OrPhraseSound(ts);
      assert Yield(t) == ts;
    }
    forall t | Shaped(t, Phrase) && Yield(t) == ts ensures ParseAll(ts) == Success(Meaning(t)) {
      OrComplete(t, []);
      assert Yield(t) + [] == ts;
    }
  }

  /** AND binds tighter than OR, on both sides, and neither needs parentheses. */
  lemma AndBindsTighter(a: string, b: string, c: string)
    ensures ParseAll([CourseToken(a), AndToken, CourseToken(b), OrToken, CourseToken(c)])
      == Success(AnyOf([AllOf([CourseRef(a), CourseRef(b)]), CourseRef(c)]))
    ensures ParseAll([CourseToken(a), OrToken, CourseToken(b), AndToken, CourseToken(c)])
      == Success(AnyOf([CourseRef(a), AllOf([CourseRef(b), CourseRef(c)])]))
  {
    var x, y, z := Single(CourseToken(a)), Single(CourseToken(b)), Single(CourseToken(c));
    TwoParts(x, y, AndToken);
    TwoParts(y, z, AndToken);
    TwoParts(Conjunction([x, y]), z, OrToken);
    TwoParts(x, Conjunction([y, z]), OrToken);
    var left, right := Disjunction([Conjunction([x, y]), z]), Disjunction([x, Conjunction([y, z])]);
    assert Yield(left) == [CourseToken(a), AndToken, CourseToken(b), OrToken, CourseToken(c)];
    assert Yield(right) == [CourseToken(a), OrToken, CourseToken(b), AndToken, CourseToken(c)];
    assert Shaped(Conjunction([x, y]), Conjunct) && Shaped(Conjunction([y, z]), Conjunct);
    assert Shaped(left, Phrase) && Shaped(right, Phrase);
    assert Meaning(left) == AnyOf([AllOf([CourseRef(a), CourseRef(b)]), CourseRef(c)]);
    assert Meaning(right) == AnyOf([CourseRef(a), AllOf([CourseRef(b), CourseRef(c)])]);
    TreeParses(left);
    TreeParses(right);
  }

  lemma TreeParses(t: Tree)
    requires Shaped(t, Phrase)
    ensures ParseAll(Yield(t)) == Success(Meaning(t))
  {
    ParserDecidesGrammar(Yield(t), Meaning(t));
  }

  lemma TwoParts(x: Tree, y: Tree, separator: Token)
    ensures YieldAll([x, y], separator) == Yield(x) + [separator] + Yield(y)
    ensures Meanings([x, y]) == [Meaning(x), Meaning(y)]
  {
    assert [x, y][1..] == [y];
    assert [y][1..] == [];
  }

  // ---- Normal forms and the parenthesised rendering ----

  /** The shape of every expression a non-blank text can denote. */
  predicate NormalForm(e: Expr) {
    match e
    case AllOf(items) => |items| >= 2 && forall i | 0 <= i < |items| :: NormalForm(items[i])
    case AnyOf(items) => |items| >= 2 && forall i | 0 <= i < |items| :: NormalForm(items[i])
    case CoRequisite(items) => |items| >= 1 && forall i | 0 <= i < |items| :: NormalForm(items[i])
    case CreditsAtLeast(credits) => credits >= 0
    case _ => true
  }

  /** The tree with parentheses around every AND and OR. */
  function Bracketed(e: Expr): Tree
    requires NormalForm(e)
  {
    match e
    case CourseRef(code) => Single(CourseToken(code))
    case CreditsAtLeast(credits) => Single(CreditsToken(credits))
    case Predicate(kind, value) => Single(PredicateToken(kind, value))
    case GradeAtLeast(course, grade) => Graded(course, grade)
    case AllOf(items) => Paren(Conjunction(BracketedAll(items)))
    case AnyOf(items) => Paren(Disjunction(BracketedAll(items)))
    case CoRequisite(items) => Corequisites(BracketedAll(items))
  }

  function BracketedAll(items: seq<Expr>): (r: seq<Tree>)
    requires forall i | 0 <= i < |items| :: NormalForm(items[i])
    ensures |r| == |items|
  {
    if items == [] then [] else [Bracketed(items[0])] + BracketedAll(items[1..])
  }

  function Render(e: Expr): seq<Token>
    requires NormalForm(e)
  {
    Yield(Bracketed(e))
  }

  lemma {:induction false} BracketedMeans(e: Expr)
    requires NormalForm(e)
    ensures Shaped(Bracketed(e), Operand) && Meaning(Bracketed(e)) == e
    decreases e, 0
  {
    match e
    case AllOf(items) => BracketedAllMean(items);
    case AnyOf(items) => BracketedAllMean(items);
    case CoRequisite(items) => BracketedAllMean(items);
    case _ =>
  }

  lemma {:induction false} BracketedAllMean(items: seq<Expr>)
    requires forall i | 0 <= i < |items| :: NormalForm(items[i])
    ensures Meanings(BracketedAll(items)) == items
    ensures forall i | 0 <= i < |items| :: Shaped(BracketedAll(items)[i], Operand)
    ensures forall i, level | 0 <= i < |items| :: Shaped(BracketedAll(items)[i], level)
    decreases items, 1
  {
    if items != [] {
      BracketedMeans(items[0]);
      BracketedAllMean(items[1..]);
      assert items == [items[0]] + items[1..];
      forall i, level | 0 <= i < |items| ensures Shaped(BracketedAll(items)[i], level) {
        OperandIsConjunct(BracketedAll(items)[i]);
      }
    }
  }

  /** Printing and then parsing a normal form is the identity. */
  lemma ParseInvertsRender(e: Expr)
    requires NormalForm(e)
    ensures ParseAll(Render(e)) == Success(e)
  {
    BracketedMeans(e);
    OperandIsConjunct(Bracketed(e));
    ParserDecidesGrammar(Render(e), e);
  }

  lemma {:induction false} MeaningIsNormal(t: Tree, level: Level)
    requires Shaped(t, level)
    ensures NormalForm(Meaning(t))
    decreases t, 0
  {
    match t
    case Paren(inner) => MeaningIsNormal(inner, Phrase);
    case Corequisites(parts) => MeaningsAreNormal(parts, Phrase);
    case Conjunction(parts) => MeaningsAreNormal(parts, Operand);
    case Disjunction(parts) => MeaningsAreNormal(parts, Conjunct);
    case _ =>
  }

  lemma {:induction false} MeaningsAreNormal(parts: seq<Tree>, level: Level)
    requires forall i | 0 <= i < |parts| :: Shaped(parts[i], level)
    ensures forall i | 0 <= i < |parts| :: NormalForm(Meanings(parts)[i])
    decreases parts, 1
  {
    if parts != [] {
      MeaningIsNormal(parts[0], level);
      MeaningsAreNormal(parts[1..], level);
    }
  }

  /** A tree without its redundant parentheses and one with all of them mean the same expression. */
  predicate UpToParentheses(ts: seq<Token>, us: seq<Token>) {
    Unbracketed(ts) == Unbracketed(us)
  }

  function Unbracketed(ts: seq<Token>): seq<Token> {
    if ts == [] then [] else Kept(ts[0]) + Unbracketed(ts[1..])
  }

  function Kept(token: Token): seq<Token> {
    if token.LParen? || token.RParen? then [] else [token]
  }

  lemma UnbracketedStep(ts: seq<Token>, us: seq<Token>)
    requires ts != []
    ensures Unbracketed(ts + us) == Kept(ts[0]) + Unbracketed(ts[1..] + us)
  {
    assert (ts + us)[1..] == ts[1..] + us && (ts + us)[0] == ts[0];
  }

  lemma {:induction false} UnbracketedConcat(ts: seq<Token>, us: seq<Token>)
    ensures Unbracketed(ts + us) == Unbracketed(ts) + Unbracketed(us)
  {
    hide Kept;
    if ts == [] {
      assert ts + us == us;
    } else {
      UnbracketedConcat(ts[1..], us);
      UnbracketedStep(ts, us);
      UnbracketedStep(ts, []);
      assert ts + [] == ts && ts[1..] + [] == ts[1..];
    }
  }

  lemma {:induction false} YieldIsRendering(t: Tree, level: Level)
    requires Shaped(t, level)
    ensures NormalForm(Meaning(t)) && UpToParentheses(Yield(t), Render(Meaning(t)))
    decreases t, 0
  {
    MeaningIsNormal(t, level);
    match t
    case Paren(inner) =>
      YieldIsRendering(inner, Phrase);
      BracketsVanish(Yield(inner));
    case Corequisites(parts) =>
      YieldAllIsRendering(parts, Phrase, Comma);
      UnbracketedConcat([CoreqToken, LParen] + YieldAll(parts, Comma), [RParen]);
      UnbracketedConcat([CoreqToken, LParen], YieldAll(parts, Comma));
      var brackets := BracketedAll(Meanings(parts));
      UnbracketedConcat([CoreqToken, LParen] + YieldAll(brackets, Comma), [RParen]);
      UnbracketedConcat([CoreqToken, LParen], YieldAll(brackets, Comma));
    case Conjunction(parts) =>
      YieldAllIsRendering(parts, Operand, AndToken);
      var plain := Conjunction(BracketedAll(Meanings(parts)));
      assert Yield(plain) == YieldAll(plain.parts, AndToken) && Render(Meaning(t)) == Yield(Paren(plain));
      BracketsVanish(Yield(plain));
    case Disjunction(parts) =>
      YieldAllIsRendering(parts, Conjunct, OrToken);
      var plain := Disjunction(BracketedAll(Meanings(parts)));
      assert Yield(plain) == YieldAll(plain.parts, OrToken) && Render(Meaning(t)) == Yield(Paren(plain));
      BracketsVanish(Yield(plain));
    case _ =>
  }

  lemma BracketsVanish(ts: seq<Token>)
    ensures Unbracketed([LParen] + ts + [RParen]) == Unbracketed(ts)
  {
    UnbracketedConcat([LParen] + ts, [RParen]);
    UnbracketedConcat([LParen], ts);
  }

  lemma {:induction false} YieldAllIsRendering(parts: seq<Tree>, level: Level, separator: Token)
    requires forall i | 0 <= i < |parts| :: Shaped(parts[i], level)
    ensures forall i | 0 <= i < |parts| :: NormalForm(Meanings(parts)[i])
    ensures UpToParentheses(YieldAll(parts, separator), YieldAll(BracketedAll(Meanings(parts)), separator))
    decreases parts, 1
  {
    MeaningsAreNormal(parts, level);
    if parts != [] {
      YieldIsRendering(parts[0], level);
      YieldAllIsRendering(parts[1..], level, separator);
      var brackets := BracketedAll(Meanings(parts));
      assert brackets[0] == Bracketed(Meaning(parts[0])) && brackets[1..] == BracketedAll(Meanings(parts[1..]));
      if |parts| > 1 {
        UnbracketedConcat(Yield(parts[0]) + [separator], YieldAll(parts[1..], separator));
        UnbracketedConcat(Yield(parts[0]), [separator]);
        UnbracketedConcat(Yield(brackets[0]) + [separator], YieldAll(brackets[1..], separator));
        UnbracketedConcat(Yield(brackets[0]), [separator]);
      }
    }
  }

  /** An accepted text denotes a normal form, and is that form's rendering up to parentheses. */
  lemma AcceptedIsNormal(ts: seq<Token>, e: Expr)
    requires ParseAll(ts) == Success(e)
    ensures NormalForm(e) && UpToParentheses(ts, Render(e))
    ensures ParseAll(Render(e)) == Success(e)
  {
    ParserDecidesGrammar(ts, e);
    var t :| Shaped(t, Phrase) && Yield(t) == ts && Meaning(t) == e;
    YieldIsRendering(t, Phrase);
    ParseInvertsRender(e);
  }
}

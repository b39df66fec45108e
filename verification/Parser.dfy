/**
 The prerequisite parser, from the token level up: the recursive-descent methods with their
 moving index, the grammar they decide, and the round trip with the parenthesised rendering.
 */
module Parser {
  import opened Ast
  import opened Outcomes

  datatype Kind = AND | OR | COREQ | LPAREN | RPAREN | COMMA | CREDITS | GRADE | PLACEMENT | PERMISSION | COURSE

  /** A token with its payload already normalised by the tokenizer. */
  datatype Token =
    | AndToken | OrToken | CoreqToken | LParen | RParen | Comma
    | CreditsToken(amount: nat)
    | GradeToken(letter: string)
    | PredicateToken(kind: PredicateKind, value: string)
    | CourseToken(code: string)

  function KindOf(t: Token): Kind {
    match t
    case AndToken => AND
    case OrToken => OR
    case CoreqToken => COREQ
    case LParen => LPAREN
    case RParen => RPAREN
    case Comma => COMMA
    case CreditsToken(_) => CREDITS
    case GradeToken(_) => GRADE
    case PredicateToken(kind, _) => if kind.Placement? then PLACEMENT else PERMISSION
    case CourseToken(_) => COURSE
  }

  datatype ParseError = Expected(kind: Kind) | EndOfInput | ExpectedOperand | Unexpected(token: Token)

  predicate StartsWith(ts: seq<Token>, kind: Kind) {
    ts != [] && KindOf(ts[0]) == kind
  }

  // ---- Reference parser: what the methods below compute, as functions of the remaining tokens ----

  type Parsed = Result<(Expr, seq<Token>), ParseError>
  type ParsedList = Result<(seq<Expr>, seq<Token>), ParseError>

  function OrOf(items: seq<Expr>): Expr
    requires items != []
  {
    if |items| == 1 then items[0] else AnyOf(items)
  }

  function AndOf(items: seq<Expr>): Expr
    requires items != []
  {
    if |items| == 1 then items[0] else AllOf(items)
  }

  function OrPhrase(ts: seq<Token>): (r: Parsed)
    ensures r.Success? ==> |r.value.1| < |ts|
    decreases |ts|, 2
  {
    var (first, rest) :- AndPhrase(ts);
    var (items, rest') :- OrTail([first], rest);
    Success((OrOf(items), rest'))
  }

  function OrTail(items: seq<Expr>, ts: seq<Token>): (r: ParsedList)
    ensures r.Success? ==> |r.value.1| <= |ts| && |r.value.0| >= |items|
    decreases |ts|
  {
    if !StartsWith(ts, OR) then Success((items, ts)) else
    var (next, rest) :- AndPhrase(ts[1..]);
    OrTail(items + [next], rest)
  }

  function AndPhrase(ts: seq<Token>): (r: Parsed)
    ensures r.Success? ==> |r.value.1| < |ts|
    decreases |ts|, 1
  {
    var (first, rest) :- Primary(ts);
    var (items, rest') :- AndTail([first], rest);
    Success((AndOf(items), rest'))
  }

  function AndTail(items: seq<Expr>, ts: seq<Token>): (r: ParsedList)
    ensures r.Success? ==> |r.value.1| <= |ts| && |r.value.0| >= |items|
    decreases |ts|
  {
    if !StartsWith(ts, AND) then Success((items, ts)) else
    var (next, rest) :- Primary(ts[1..]);
    AndTail(items + [next], rest)
  }

  function CommaTail(items: seq<Expr>, ts: seq<Token>): (r: ParsedList)
    ensures r.Success? ==> |r.value.1| <= |ts| && |r.value.0| >= |items|
    decreases |ts|
  {
    if !StartsWith(ts, COMMA) then Success((items, ts)) else
    var (next, rest) :- OrPhrase(ts[1..]);
    CommaTail(items + [next], rest)
  }

  function Primary(ts: seq<Token>): (r: Parsed)
    ensures r.Success? ==> |r.value.1| < |ts|
    decreases |ts|, 0
  {
    if ts == [] then Failure(EndOfInput) else
    match ts[0]
    case LParen =>
      var (inner, rest) :- OrPhrase(ts[1..]);
      if StartsWith(rest, RPAREN) then Success((inner, rest[1..])) else Failure(Expected(RPAREN))
    case CoreqToken =>
      if !StartsWith(ts[1..], LPAREN) then Failure(Expected(LPAREN)) else
      var (first, rest) :- OrPhrase(ts[2..]);
      var (items, rest') :- CommaTail([first], rest);
      if StartsWith(rest', RPAREN) then Success((CoRequisite(items), rest'[1..])) else Failure(Expected(RPAREN))
    case CreditsToken(amount) => Success((CreditsAtLeast(amount), ts[1..]))
    case PredicateToken(kind, value) => Success((Predicate(kind, value), ts[1..]))
    case CourseToken(code) =>
      if StartsWith(ts[1..], GRADE) then Success((GradeAtLeast(code, ts[1].letter), ts[2..]))
      else Success((CourseRef(code), ts[1..]))
    case _ => Failure(ExpectedOperand)
  }

  /** The whole-input parse: an or-phrase with nothing behind it. */
  function ParseAll(ts: seq<Token>): Result<Expr, ParseError> {
    var (e, rest) :- OrPhrase(ts);
    if rest == [] then Success(e) else Failure(Unexpected(rest[0]))
  }

  // ---- The parser object ----

  class TokenParser {
    const tokens: seq<Token>
    var index: nat

    ghost predicate Valid()
      reads this
    {
      index <= |tokens|
    }

    ghost function Rest(): seq<Token>
      reads this
      requires Valid()
    {
      tokens[index..]
    }

    constructor (tokens: seq<Token>)
      ensures Valid() && Rest() == tokens && this.tokens == tokens
    {
      this.tokens := tokens;
      index := 0;
    }

    method Accept(kind: Kind) returns (token: Option<Token>)
      requires Valid()
      modifies this
      ensures Valid()
      ensures StartsWith(old(Rest()), kind) ==>
                token == Some(old(Rest())[0]) && Rest() == old(Rest())[1..] && index == old(index) + 1
      ensures !StartsWith(old(Rest()), kind) ==> token == None && index == old(index)
    {
      token := None;
      if index < |tokens| && KindOf(tokens[index]) == kind {
        token := Some(tokens[index]);
        index := index + 1;
      }
    }

    method Require(kind: Kind) returns (r: Result<Token, ParseError>)
      requires Valid()
      modifies this
      ensures Valid()
      ensures StartsWith(old(Rest()), kind) ==>
                r == Success(old(Rest())[0]) && Rest() == old(Rest())[1..] && index == old(index) + 1
      ensures !StartsWith(old(Rest()), kind) ==> r == Failure(Expected(kind)) && index == old(index)
    {
      var token := Accept(kind);
      r := if token.Some? then Success(token.value) else Failure(Expected(kind));
    }

    /** Whether the method outcome `r` is what the reference parser says of the tokens seen on entry. */
    ghost predicate Agrees(r: Result<Expr, ParseError>, spec: Parsed)
      reads this
    {
      && Valid()
      && (spec.Success? ==> r == Success(spec.value.0) && Rest() == spec.value.1)
      && (spec.Failure? ==> r == Failure(spec.error))
    }

    method Parse() returns (r: Result<Expr, ParseError>)
      requires Valid()
      modifies this
      ensures r == ParseAll(old(Rest()))
    {
      var e :- ParseOr();
      if index < |tokens| {
        return Failure(Unexpected(tokens[index]));
      }
      return Success(e);
    }

    method ParseOr() returns (r: Result<Expr, ParseError>)
      requires Valid()
      modifies this
      ensures Agrees(r, OrPhrase(old(Rest())))
      decreases |tokens| - index, 2
    {
      var first :- ParseAnd();
      var items := [first];
      ghost var goal := OrTail(items, Rest());
      while true
        invariant Valid() && items != [] && old(index) < index
        invariant goal == OrTail(items, Rest())
        decreases |tokens| - index
      {
        var separator := Accept(OR);
        if separator.None? {
          break;
        }
        var next :- ParseAnd();
        items := items + [next];
      }
      return Success(if |items| == 1 then items[0] else AnyOf(items));
    }

    method ParseAnd() returns (r: Result<Expr, ParseError>)
      requires Valid()
      modifies this
      ensures Agrees(r, AndPhrase(old(Rest())))
      decreases |tokens| - index, 1
    {
      var first :- ParsePrimary();
      var items := [first];
      ghost var goal := AndTail(items, Rest());
      while true
        invariant Valid() && items != [] && old(index) < index
        invariant goal == AndTail(items, Rest())
        decreases |tokens| - index
      {
        var separator := Accept(AND);
        if separator.None? {
          break;
        }
        var next :- ParsePrimary();
        items := items + [next];
      }
      return Success(if |items| == 1 then items[0] else AllOf(items));
    }

    method ParsePrimary() returns (r: Result<Expr, ParseError>)
      requires Valid()
      modifies this
      ensures Agrees(r, Primary(old(Rest())))
      decreases |tokens| - index, 0
    {
      var open := Accept(LPAREN);
      if open.Some? {
        var inner :- ParseOr();
        var _ :- Require(RPAREN);
        return Success(inner);
      }
      var coreq := Accept(COREQ);
      if coreq.Some? {
        assert old(Rest()) == [CoreqToken] + Rest();
        r := ParseCorequisites();
        return;
      }
      r := ParseAtom();
    }

    /** The part of `ParsePrimary` for everything that is neither a parenthesis nor a COREQ. */
    method ParseAtom() returns (r: Result<Expr, ParseError>)
      requires Valid() && !StartsWith(Rest(), LPAREN) && !StartsWith(Rest(), COREQ)
      modifies this
      ensures Agrees(r, Primary(old(Rest())))
    {
      if index == |tokens| {
        return Failure(EndOfInput);
      }
      var token := tokens[index];
      ghost var ts := Rest();
      assert ts[0] == token && ts[1..] == tokens[index + 1..];
      match token {
        case CreditsToken(amount) =>
          index := index + 1;
          return Success(CreditsAtLeast(amount));
        case PredicateToken(kind, value) =>
          index := index + 1;
          return Success(Predicate(kind, value));
        case CourseToken(code) =>
          index := index + 1;
          var grade := Accept(GRADE);
          if grade.None? {
            return Success(CourseRef(code));
          }
          assert ts[1..][0] == ts[1] && ts[1..][1..] == ts[2..];
          return Success(GradeAtLeast(code, grade.value.letter));
        case _ =>
          return Failure(ExpectedOperand);
      }
    }

    /** The part of `ParsePrimary` behind a COREQ token. */
    method ParseCorequisites() returns (r: Result<Expr, ParseError>)
      requires Valid()
      modifies this
      ensures Agrees(r, Primary([CoreqToken] + old(Rest())))
      decreases |tokens| - index, 3
    {
      assert ([CoreqToken] + Rest())[1..] == Rest();
      var _ :- Require(LPAREN);
      assert ([CoreqToken] + old(Rest()))[2..] == Rest();
      var first :- ParseOr();
      var items := [first];
      ghost var goal := CommaTail(items, Rest());
      while true
        invariant Valid() && items != [] && old(index) < index
        invariant goal == CommaTail(items, Rest())
        decreases |tokens| - index
      {
        var separator := Accept(COMMA);
        if separator.None? {
          break;
        }
        var next :- ParseOr();
        items := items + [next];
      }
      var _ :- Require(RPAREN);
      return Success(CoRequisite(items));
    }
  }
}

/** The recursive-descent parser of filter strings: a specification on token sequences, and the
    parser object that meets it while it pulls tokens from the lexer. */
module AofParser {
  import opened Aof
  import opened AofLexer

  datatype ParseError =
    | Lexical(error: LexError, at: nat)
    | TrailingToken
    | ExpectedOperand
    | ExpectedRParen
    | ExpectedLiteral
    | ExpectedOperator
    | ExpectedAndInBetween
    | ExpectedLParenAfterIn
    | ExpectedRParenAfterIn

  datatype Result<T> = Ok(value: T) | Err(error: ParseError)

  /** A value read from the front of a token sequence, and the tokens left. */
  datatype Parsed<T> = Yes(value: T, rest: seq<Token>) | No(error: ParseError)

  // ----- specification

  function Head(ts: seq<Token>): Token { if ts == [] then TEnd else ts[0] }

  predicate IsLiteral(t: Token) { t.TNumber? || t.TString? || t.TBool? }

  function LiteralValue(t: Token): Value
    requires IsLiteral(t)
  {
    match t
    case TNumber(v) => v
    case TString(s) => StrValue(s)
    case TBool(b) => IntValue(if b then 1 else 0)
  }

  function Literal(ts: seq<Token>): (p: Parsed<Value>)
    ensures p.Yes? ==> |p.rest| < |ts|
  {
    if IsLiteral(Head(ts)) then Yes(LiteralValue(ts[0]), ts[1..]) else No(ExpectedLiteral)
  }

  /** The rest of an IN list, of which `vs` has been read. */
  function InList(vs: seq<Value>, ts: seq<Token>): (p: Parsed<seq<Value>>)
    ensures p.Yes? ==> |p.rest| < |ts|
    decreases |ts|
  {
    match Literal(ts)
    case No(e) => No(e)
    case Yes(v, r) => if Head(r) == TComma then InList(vs + [v], r[1..]) else Yes(vs + [v], r)
  }

  /** The leaf of the field named by the identifier before `ts`. */
  function LeafOf(field: string, ts: seq<Token>): (p: Parsed<Node>)
    ensures p.Yes? ==> |p.rest| < |ts|
  {
    match Head(ts)
    case TBetween =>
      (match Literal(ts[1..])
       case No(e) => No(e)
       case Yes(lo, r) =>
         if Head(r) != TAnd then No(ExpectedAndInBetween) else
         match Literal(r[1..])
         case No(e) => No(e)
         case Yes(hi, r') => Yes(Leaf(field, Between, [lo, hi]), r'))
    case TIn =>
      if Head(ts[1..]) != TLParen then No(ExpectedLParenAfterIn) else
      (match InList([], ts[2..])
       case No(e) => No(e)
       case Yes(vs, r) => if Head(r) != TRParen then No(ExpectedRParenAfterIn) else Yes(Leaf(field, In, vs), r[1..]))
    case TOp(op) =>
      (match Literal(ts[1..])
       case No(e) => No(e)
       case Yes(v, r) => Yes(Leaf(field, op, [v]), r))
    case _ => No(ExpectedOperator)
  }

  function MakeOr(kids: seq<Node>): Node
    requires kids != []
  {
    if |kids| == 1 then kids[0] else Or(kids)
  }

  function MakeAnd(kids: seq<Node>): Node
    requires kids != []
  {
    if |kids| == 1 then kids[0] else And(kids)
  }

  function OrExpr(ts: seq<Token>): (p: Parsed<Node>)
    ensures p.Yes? ==> |p.rest| < |ts|
    decreases |ts|, 4
  {
    match AndExpr(ts)
    case No(e) => No(e)
    case Yes(n, r) => OrTail([n], r)
  }

  function OrTail(kids: seq<Node>, ts: seq<Token>): (p: Parsed<Node>)
    requires kids != []
    ensures p.Yes? ==> |p.rest| <= |ts|
    decreases |ts|, 5
  {
    if Head(ts) != TOr then Yes(MakeOr(kids), ts) else
    match AndExpr(ts[1..])
    case No(e) => No(e)
    case Yes(n, r) => OrTail(kids + [n], r)
  }

  function AndExpr(ts: seq<Token>): (p: Parsed<Node>)
    ensures p.Yes? ==> |p.rest| < |ts|
    decreases |ts|, 2
  {
    match NotExpr(ts)
    case No(e) => No(e)
    case Yes(n, r) => AndTail([n], r)
  }

  function AndTail(kids: seq<Node>, ts: seq<Token>): (p: Parsed<Node>)
    requires kids != []
    ensures p.Yes? ==> |p.rest| <= |ts|
    decreases |ts|, 3
  {
    if Head(ts) != TAnd then Yes(MakeAnd(kids), ts) else
    match NotExpr(ts[1..])
    case No(e) => No(e)
    case Yes(n, r) => AndTail(kids + [n], r)
  }

  function NotExpr(ts: seq<Token>): (p: Parsed<Node>)
    ensures p.Yes? ==> |p.rest| < |ts|
    decreases |ts|, 1
  {
    if Head(ts) == TNot then
      match NotExpr(ts[1..])
      case No(e) => No(e)
      case Yes(n, r) => Yes(Not(n), r)
    else Primary(ts)
  }

  function Primary(ts: seq<Token>): (p: Parsed<Node>)
    ensures p.Yes? ==> |p.rest| < |ts|
    decreases |ts|, 0
  {
    match Head(ts)
    case TLParen =>
      (match OrExpr(ts[1..])
       case No(e) => No(e)
       case Yes(n, r) => if Head(r) != TRParen then No(ExpectedRParen) else Yes(n, r[1..]))
    case TIdent(field) => LeafOf(field, ts[1..])
    case _ => No(ExpectedOperand)
  }

  /** The whole parser.  Only a lexical error in the first token is reported; a later one reads as
      the end of the text. */
  function Parse(s: string): Result<Node> {
    if Lex(s, 0).LexFailed? then Err(Lexical(Lex(s, 0).error, Lex(s, 0).at)) else
    match OrExpr(Tokens(s, 0))
    case No(e) => Err(e)
    case Yes(n, r) => if r == [] then Ok(n) else Err(TrailingToken)
  }

  // ----- the parser

  class Parser {
    const lex: Lexer
    var cur: Token
    var failure: Result<()>

    ghost predicate Valid()
      reads this, lex
    {
      lex.Valid()
    }

    /** The tokens not yet consumed, the current one first. */
    ghost function Rest(): seq<Token>
      reads this, lex
      requires Valid()
    {
      if cur == TEnd then [] else [cur] + Tokens(lex.src, lex.pos)
    }

    constructor (src: string)
      ensures Valid() && fresh(lex)
      ensures var r := Lex(src, 0);
        if r.LexFailed? then failure == Err(Lexical(r.error, r.at)) else failure == Ok(()) && Rest() == Tokens(src, 0)
    {
      var lexer := new Lexer(src);
      var t := lexer.Next();
      lex := lexer;
      if t.Lexed? {
        cur, failure := t.token, Ok(());
      } else {
        cur, failure := TEnd, Err(Lexical(t.error, t.at));
      }
    }

    method ParseTop() returns (r: Result<Node>)
      requires Valid()
      modifies this, lex
      ensures r == if old(failure).Err? then Err(old(failure).error) else
        match OrExpr(old(Rest()))
        case No(e) => Err(e)
        case Yes(n, rest) => if rest == [] then Ok(n) else Err(TrailingToken)
    {
      if failure.Err? { return Err(failure.error); }
      r := ParseOr();
      if r.Ok? && cur != TEnd {
        r := Err(TrailingToken);
      }
    }

    method Advance()
      requires Valid() && cur != TEnd
      modifies this, lex
      ensures Valid() && Rest() == old(Rest())[1..]
    {
      var t := lex.Next();
      if t.Lexed? {
        cur := t.token;
      } else {
        failure, cur := Err(Lexical(t.error, t.at)), TEnd;
      }
    }

    method Match(t: Token) returns (matched: bool)
      requires Valid() && t != TEnd
      modifies this, lex
      ensures Valid() && matched == (Head(old(Rest())) == t)
      ensures Rest() == if matched then old(Rest())[1..] else old(Rest())
    {
      if cur != t { return false; }
      Advance();
      return true;
    }

    /** The result of a parse method and the tokens it left are what the specification says. */
    ghost predicate Agrees<T>(p: Parsed<T>, r: Result<T>)
      reads this, lex
      requires Valid()
    {
      match p
      case Yes(v, rest) => r == Ok(v) && Rest() == rest
      case No(e) => r == Err(e)
    }

    method ParseOr() returns (r: Result<Node>)
      requires Valid()
      modifies this, lex
      ensures Valid() && Agrees(OrExpr(old(Rest())), r)
      decreases |Rest()|, 4
    {
      r := ParseAnd();
      if r.Err? { return; }
      var kids := [r.value];
      while cur == TOr
        invariant Valid() && kids != [] && |Rest()| < |old(Rest())|
        invariant OrTail(kids, Rest()) == OrExpr(old(Rest()))
        decreases |Rest()|
      {
        Advance();
        r := ParseAnd();
        if r.Err? { return; }
        kids := kids + [r.value];
      }
      if |kids| == 1 { return Ok(kids[0]); }
      return Ok(Or(kids));
    }

    method ParseAnd() returns (r: Result<Node>)
      requires Valid()
      modifies this, lex
      ensures Valid() && Agrees(AndExpr(old(Rest())), r)
      decreases |Rest()|, 3
    {
      r := ParseNot();
      if r.Err? { return; }
      var kids := [r.value];
      while cur == TAnd
        invariant Valid() && kids != [] && |Rest()| < |old(Rest())|
        invariant AndTail(kids, Rest()) == AndExpr(old(Rest()))
        decreases |Rest()|
      {
        Advance();
        r := ParseNot();
        if r.Err? { return; }
        kids := kids + [r.value];
      }
      if |kids| == 1 { return Ok(kids[0]); }
      return Ok(And(kids));
    }

    method ParseNot() returns (r: Result<Node>)
      requires Valid()
      modifies this, lex
      ensures Valid() && Agrees(NotExpr(old(Rest())), r)
      decreases |Rest()|, 2
    {
      if cur == TNot {
        Advance();
        r := ParseNot();
        if r.Err? { return; }
        return Ok(Not(r.value));
      }
      r := ParsePrimary();
    }

    method ParsePrimary() returns (r: Result<Node>)
      requires Valid()
      modifies this, lex
      ensures Valid() && Agrees(Primary(old(Rest())), r)
      decreases |Rest()|, 1
    {
      if cur == TLParen {
        Advance();
        r := ParseOr();
        if r.Err? { return; }
        var closed := Match(TRParen);
        if !closed { return Err(ExpectedRParen); }
        return;
      }
      if cur.TIdent? {
        r := ParseLeaf();
        return;
      }
      return Err(ExpectedOperand);
    }

    method ParseLiteral() returns (r: Result<Value>)
      requires Valid()
      modifies this, lex
      ensures Valid() && Agrees(Literal(old(Rest())), r)
    {
      if cur.TString? {
        r := Ok(StrValue(cur.text));
        Advance();
      } else if cur.TNumber? {
        r := Ok(cur.number);
        Advance();
      } else if cur.TBool? {
        r := Ok(IntValue(if cur.value then 1 else 0));
        Advance();
      } else {
        r := Err(ExpectedLiteral);
      }
    }

    method ParseLeaf() returns (r: Result<Node>)
      requires Valid() && cur.TIdent?
      modifies this, lex
      ensures Valid() && Agrees(LeafOf(old(cur.text), old(Rest())[1..]), r)
    {
      hide Literal, InList, Tokens;
      var field := cur.text;
      Advance();
      if cur == TBetween {
        Advance();
        var a := ParseLiteral();
        if a.Err? { return Err(a.error); }
        if cur != TAnd { return Err(ExpectedAndInBetween); }
        Advance();
        var b := ParseLiteral();
        if b.Err? { return Err(b.error); }
        return Ok(Leaf(field, Between, [a.value, b.value]));
      }
      if cur == TIn {
        Advance();
        var open := Match(TLParen);
        if !open { return Err(ExpectedLParenAfterIn); }
        var vs := ParseInList();
        if vs.Err? { return Err(vs.error); }
        var closed := Match(TRParen);
        if !closed { return Err(ExpectedRParenAfterIn); }
        return Ok(Leaf(field, In, vs.value));
      }
      if !cur.TOp? { return Err(ExpectedOperator); }
      var op := cur.op;
      Advance();
      var rhs := ParseLiteral();
      if rhs.Err? { return Err(rhs.error); }
      return Ok(Leaf(field, op, [rhs.value]));
    }

    /** The literals of an IN list. */
    method ParseInList() returns (r: Result<seq<Value>>)
      requires Valid()
      modifies this, lex
      ensures Valid() && Agrees(InList([], old(Rest())), r)
    {
      var vs := [];
      while true
        invariant Valid() && InList(vs, Rest()) == InList([], old(Rest()))
        decreases |Rest()|
      {
        var v := ParseLiteral();
        if v.Err? { return Err(v.error); }
        vs := vs + [v.value];
        if cur != TComma { break; }
        Advance();
      }
      return Ok(vs);
    }
  }

  method ParseFilter(src: string) returns (r: Result<Node>)
    ensures r == Parse(src)
  {
    var p := new Parser(src);
    r := p.ParseTop();
  }
}

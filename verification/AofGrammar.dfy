/** The documented grammar of filter expressions, as derivation trees, and the proof that the parser
    accepts exactly that grammar. */
module AofGrammar {
  import opened Aof
  import opened AofLexer
  import opened AofParser

  // orExpr  := andExpr (OR andExpr)*
  // andExpr := notExpr (AND notExpr)*
  // notExpr := NOT notExpr | "(" orExpr ")" | leaf
  // leaf    := IDENT op literal | IDENT BETWEEN literal AND literal | IDENT IN "(" literal ("," literal)* ")"
  datatype OrTree = OrTree(ands: seq<AndTree>)

  datatype AndTree = AndTree(nots: seq<NotTree>)

  datatype NotTree =
    | Negation(child: NotTree)
    | Parens(inner: OrTree)
    | Comparing(field: string, op: Comparison, literal: Token)
    | InRange(field: string, lo: Token, hi: Token)
    | OneOf(field: string, literals: seq<Token>)

  predicate Literals(ts: seq<Token>) { forall k | 0 <= k < |ts| :: IsLiteral(ts[k]) }

  predicate OrWf(e: OrTree) { e.ands != [] && forall k | 0 <= k < |e.ands| :: AndWf(e.ands[k]) }

  predicate AndWf(e: AndTree) { e.nots != [] && forall k | 0 <= k < |e.nots| :: NotWf(e.nots[k]) }

  predicate NotWf(e: NotTree) {
    match e
    case Negation(child) => NotWf(child)
    case Parens(inner) => OrWf(inner)
    case Comparing(_, _, literal) => IsLiteral(literal)
    case InRange(_, lo, hi) => IsLiteral(lo) && IsLiteral(hi)
    case OneOf(_, literals) => literals != [] && Literals(literals)
  }

  // ----- the tokens of a derivation, followed by `rest`

  function OrYield(e: OrTree, rest: seq<Token>): seq<Token>
    requires OrWf(e)
  {
    AndYield(e.ands[0], OrYieldTail(e.ands[1..], rest))
  }

  function OrYieldTail(ands: seq<AndTree>, rest: seq<Token>): seq<Token>
    requires forall k | 0 <= k < |ands| :: AndWf(ands[k])
  {
    if ands == [] then rest else [TOr] + AndYield(ands[0], OrYieldTail(ands[1..], rest))
  }

  function AndYield(e: AndTree, rest: seq<Token>): seq<Token>
    requires AndWf(e)
  {
    NotYield(e.nots[0], AndYieldTail(e.nots[1..], rest))
  }

  function AndYieldTail(nots: seq<NotTree>, rest: seq<Token>): seq<Token>
    requires forall k | 0 <= k < |nots| :: NotWf(nots[k])
  {
    if nots == [] then rest else [TAnd] + NotYield(nots[0], AndYieldTail(nots[1..], rest))
  }

  function NotYield(e: NotTree, rest: seq<Token>): seq<Token>
    requires NotWf(e)
  {
    match e
    case Negation(child) => [TNot] + NotYield(child, rest)
    case Parens(inner) => [TLParen] + OrYield(inner, [TRParen] + rest)
    case Comparing(field, op, literal) => [TIdent(field)] + ComparingYield(op, literal, rest)
    case InRange(field, lo, hi) => [TIdent(field)] + InRangeYield(lo, hi, rest)
    case OneOf(field, literals) => [TIdent(field)] + OneOfYield(literals, rest)
  }

  function ComparingYield(op: Comparison, literal: Token, rest: seq<Token>): seq<Token> {
    [TOp(op)] + ([literal] + rest)
  }

  function InRangeYield(lo: Token, hi: Token, rest: seq<Token>): seq<Token> {
    [TBetween] + ([lo] + ([TAnd] + ([hi] + rest)))
  }

  function OneOfYield(literals: seq<Token>, rest: seq<Token>): seq<Token> {
    [TIn] + ([TLParen] + Commas(literals, [TRParen] + rest))
  }

  function Commas(literals: seq<Token>, rest: seq<Token>): seq<Token> {
    if literals == [] then rest
    else if |literals| == 1 then [literals[0]] + rest
    else [literals[0]] + ([TComma] + Commas(literals[1..], rest))
  }

  // ----- the node of a derivation

  function OrNode(e: OrTree): Node
    requires OrWf(e)
  {
    MakeOr(AndNodes(e.ands))
  }

  function AndNodes(ands: seq<AndTree>): (ns: seq<Node>)
    requires forall k | 0 <= k < |ands| :: AndWf(ands[k])
    ensures |ns| == |ands|
  {
    if ands == [] then [] else [AndNode(ands[0])] + AndNodes(ands[1..])
  }

  function AndNode(e: AndTree): Node
    requires AndWf(e)
  {
    MakeAnd(NotNodes(e.nots))
  }

  function NotNodes(nots: seq<NotTree>): (ns: seq<Node>)
    requires forall k | 0 <= k < |nots| :: NotWf(nots[k])
    ensures |ns| == |nots|
  {
    if nots == [] then [] else [NotNode(nots[0])] + NotNodes(nots[1..])
  }

  function NotNode(e: NotTree): Node
    requires NotWf(e)
  {
    match e
    case Negation(child) => Not(NotNode(child))
    case Parens(inner) => OrNode(inner)
    case Comparing(field, op, literal) => Leaf(field, op, [LiteralValue(literal)])
    case InRange(field, lo, hi) => Leaf(field, Between, [LiteralValue(lo), LiteralValue(hi)])
    case OneOf(field, literals) => Leaf(field, In, LiteralValues(literals))
  }

  function LiteralValues(literals: seq<Token>): (vs: seq<Value>)
    requires Literals(literals)
    ensures |vs| == |literals|
  {
    if literals == [] then [] else [LiteralValue(literals[0])] + LiteralValues(literals[1..])
  }

  lemma Regroup<T>(a: seq<T>, x: T, b: seq<T>)
    ensures a + ([x] + b) == a + [x] + b
  {}

  lemma Cons(t: Token, ts: seq<Token>)
    ensures Head([t] + ts) == t && ([t] + ts)[1..] == ts
  {}

  lemma Uncons(ts: seq<Token>)
    requires Head(ts) != TEnd
    ensures ts != [] && ts == [Head(ts)] + ts[1..]
  {}

  // ----- whatever the parser accepts has a derivation

  lemma {:induction false} OrSound(ts: seq<Token>) returns (e: OrTree)
    requires OrExpr(ts).Yes?
    ensures OrWf(e) && OrNode(e) == OrExpr(ts).value && ts == OrYield(e, OrExpr(ts).rest)
    decreases |ts|, 4
  {
    hide AndExpr, AndYield, AndNode, AndWf, OrTail, OrYieldTail, MakeOr;
    var a := AndSound(ts);
    var Yes(n, r) := AndExpr(ts);
    var more := OrTailSound([n], r);
    e := OrTree([a] + more);
    assert e.ands[0] == a && e.ands[1..] == more;
  }

  lemma {:induction false} OrTailSound(kids: seq<Node>, ts: seq<Token>) returns (more: seq<AndTree>)
    requires kids != [] && OrTail(kids, ts).Yes?
    ensures forall k | 0 <= k < |more| :: AndWf(more[k])
    ensures OrTail(kids, ts).value == MakeOr(kids + AndNodes(more))
    ensures ts == OrYieldTail(more, OrTail(kids, ts).rest)
    decreases |ts|, 5
  {
    hide AndExpr, AndYield, AndNode, AndWf, MakeOr;
    if Head(ts) != TOr {
      more := [];
      assert kids + [] == kids;
    } else {
      Uncons(ts);
      var a := AndSound(ts[1..]);
      var Yes(n, r) := AndExpr(ts[1..]);
      var others := OrTailSound(kids + [n], r);
      more := [a] + others;
      assert more[0] == a && more[1..] == others;
      Regroup(kids, n, AndNodes(others));
    }
  }

  lemma {:induction false} AndSound(ts: seq<Token>) returns (e: AndTree)
    requires AndExpr(ts).Yes?
    ensures AndWf(e) && AndNode(e) == AndExpr(ts).value && ts == AndYield(e, AndExpr(ts).rest)
    decreases |ts|, 2
  {
    hide NotExpr, NotYield, NotNode, NotWf, AndTail, AndYieldTail, MakeAnd;
    var a := NotSound(ts);
    var Yes(n, r) := NotExpr(ts);
    var more := AndTailSound([n], r);
    e := AndTree([a] + more);
    assert e.nots[0] == a && e.nots[1..] == more;
  }

  lemma {:induction false} AndTailSound(kids: seq<Node>, ts: seq<Token>) returns (more: seq<NotTree>)
    requires kids != [] && AndTail(kids, ts).Yes?
    ensures forall k | 0 <= k < |more| :: NotWf(more[k])
    ensures AndTail(kids, ts).value == MakeAnd(kids + NotNodes(more))
    ensures ts == AndYieldTail(more, AndTail(kids, ts).rest)
    decreases |ts|, 3
  {
    hide NotExpr, NotYield, NotNode, NotWf, MakeAnd;
    if Head(ts) != TAnd {
      more := [];
      assert kids + [] == kids;
    } else {
      Uncons(ts);
      var a := NotSound(ts[1..]);
      var Yes(n, r) := NotExpr(ts[1..]);
      var others := AndTailSound(kids + [n], r);
      more := [a] + others;
      assert more[0] == a && more[1..] == others;
      Regroup(kids, n, NotNodes(others));
    }
  }

  lemma {:induction false} NotSound(ts: seq<Token>) returns (e: NotTree)
    requires NotExpr(ts).Yes?
    ensures NotWf(e) && NotNode(e) == NotExpr(ts).value && ts == NotYield(e, NotExpr(ts).rest)
    decreases |ts|, 1
  {
    Uncons(ts);
    match Head(ts)
    case TNot =>
      var child := NotSound(ts[1..]);
      e := Negation(child);
    case TLParen =>
      hide OrExpr, OrYield, OrNode, OrWf;
      var inner := OrSound(ts[1..]);
      e := Parens(inner);
      Uncons(OrExpr(ts[1..]).rest);
    case TIdent(field) =>
      e := LeafSound(field, ts[1..]);
    case _ =>
  }

  lemma LeafSound(field: string, ts: seq<Token>) returns (e: NotTree)
    requires LeafOf(field, ts).Yes?
    ensures NotWf(e) && NotNode(e) == LeafOf(field, ts).value && [TIdent(field)] + ts == NotYield(e, LeafOf(field, ts).rest)
  {
    match Head(ts)
    case TBetween =>
      InRangeSound(field, ts);
      e := InRange(field, ts[1], ts[3]);
    case TIn =>
      var literals := OneOfSound(field, ts);
      e := OneOf(field, literals);
    case TOp(op) =>
      Uncons(ts);
      Uncons(ts[1..]);
      e := Comparing(field, op, ts[1]);
    case _ =>
  }

  lemma InRangeSound(field: string, ts: seq<Token>)
    requires LeafOf(field, ts).Yes? && Head(ts) == TBetween
    ensures |ts| >= 4 && IsLiteral(ts[1]) && IsLiteral(ts[3])
    ensures LeafOf(field, ts) == Yes(Leaf(field, Between, [LiteralValue(ts[1]), LiteralValue(ts[3])]), ts[4..])
    ensures ts == InRangeYield(ts[1], ts[3], ts[4..])
  {
    Uncons(ts);
    Uncons(ts[1..]);
    Uncons(ts[2..]);
    Uncons(ts[3..]);
    assert ts[1..][1..] == ts[2..] && ts[2..][1..] == ts[3..] && ts[3..][1..] == ts[4..];
  }

  lemma OneOfSound(field: string, ts: seq<Token>) returns (literals: seq<Token>)
    requires LeafOf(field, ts).Yes? && Head(ts) == TIn
    ensures literals != [] && Literals(literals)
    ensures LeafOf(field, ts).value == Leaf(field, In, LiteralValues(literals))
    ensures ts == OneOfYield(literals, LeafOf(field, ts).rest)
  {
    Uncons(ts);
    Uncons(ts[1..]);
    assert ts[1..][1..] == ts[2..];
    literals := InListSound([], ts[2..]);
    hide InList, Commas, LiteralValues;
    Uncons(InList([], ts[2..]).rest);
    assert [] + LiteralValues(literals) == LiteralValues(literals);
  }

  lemma {:induction false} InListSound(vs: seq<Value>, ts: seq<Token>) returns (literals: seq<Token>)
    requires InList(vs, ts).Yes?
    ensures literals != [] && Literals(literals)
    ensures InList(vs, ts).value == vs + LiteralValues(literals)
    ensures ts == Commas(literals, InList(vs, ts).rest)
    decreases |ts|
  {
    Uncons(ts);
    var Yes(v, r) := Literal(ts);
    assert v == LiteralValue(ts[0]) && r == ts[1..];
    hide LiteralValue;
    if Head(r) == TComma {
      Uncons(r);
      var others := InListSound(vs + [v], r[1..]);
      literals := [ts[0]] + others;
      assert literals[1..] == others;
      assert LiteralValues(literals) == [v] + LiteralValues(others);
      Regroup(vs, v, LiteralValues(others));
    } else {
      literals := [ts[0]];
      assert LiteralValues(literals) == [v];
    }
  }

  // ----- whatever has a derivation is parsed to the derivation's node

  lemma {:induction false} OrComplete(e: OrTree, rest: seq<Token>)
    requires OrWf(e) && Head(rest) != TOr && Head(rest) != TAnd
    ensures OrExpr(OrYield(e, rest)) == Yes(OrNode(e), rest)
    decreases e, 1
  {
    var tail := OrYieldTail(e.ands[1..], rest);
    assert Head(tail) != TAnd;
    hide AndExpr, AndYield, AndNode, AndWf, OrTail, OrYieldTail, MakeOr;
    AndComplete(e.ands[0], tail);
    OrTailComplete([AndNode(e.ands[0])], e.ands[1..], rest);
  }

  lemma {:induction false} OrTailComplete(kids: seq<Node>, ands: seq<AndTree>, rest: seq<Token>)
    requires kids != [] && Head(rest) != TOr && Head(rest) != TAnd
    requires forall k | 0 <= k < |ands| :: AndWf(ands[k])
    ensures OrTail(kids, OrYieldTail(ands, rest)) == Yes(MakeOr(kids + AndNodes(ands)), rest)
    decreases ands, 0
  {
    hide AndExpr, AndYield, AndNode, AndWf, MakeOr;
    if ands == [] {
      assert kids + [] == kids;
    } else {
      var tail := OrYieldTail(ands[1..], rest);
      assert Head(tail) != TAnd;
      Cons(TOr, AndYield(ands[0], tail));
      AndComplete(ands[0], tail);
      OrTailComplete(kids + [AndNode(ands[0])], ands[1..], rest);
      Regroup(kids, AndNode(ands[0]), AndNodes(ands[1..]));
    }
  }

  lemma {:induction false} AndComplete(e: AndTree, rest: seq<Token>)
    requires AndWf(e) && Head(rest) != TAnd
    ensures AndExpr(AndYield(e, rest)) == Yes(AndNode(e), rest)
    decreases e, 1
  {
    hide NotExpr, NotYield, NotNode, NotWf, AndTail, AndYieldTail, MakeAnd;
    NotComplete(e.nots[0], AndYieldTail(e.nots[1..], rest));
    AndTailComplete([NotNode(e.nots[0])], e.nots[1..], rest);
  }

  lemma {:induction false} AndTailComplete(kids: seq<Node>, nots: seq<NotTree>, rest: seq<Token>)
    requires kids != [] && Head(rest) != TAnd
    requires forall k | 0 <= k < |nots| :: NotWf(nots[k])
    ensures AndTail(kids, AndYieldTail(nots, rest)) == Yes(MakeAnd(kids + NotNodes(nots)), rest)
    decreases nots, 0
  {
    hide NotExpr, NotYield, NotNode, NotWf, MakeAnd;
    if nots == [] {
      assert kids + [] == kids;
    } else {
      var tail := AndYieldTail(nots[1..], rest);
      Cons(TAnd, NotYield(nots[0], tail));
      NotComplete(nots[0], tail);
      AndTailComplete(kids + [NotNode(nots[0])], nots[1..], rest);
      Regroup(kids, NotNode(nots[0]), NotNodes(nots[1..]));
    }
  }

  lemma {:induction false} NotComplete(e: NotTree, rest: seq<Token>)
    requires NotWf(e)
    ensures NotExpr(NotYield(e, rest)) == Yes(NotNode(e), rest)
    decreases e, 2
  {
    hide LeafOf;
    match e
    case Negation(child) =>
      Cons(TNot, NotYield(child, rest));
      NotComplete(child, rest);
    case Parens(inner) =>
      hide OrExpr, OrYield, OrNode, OrWf;
      Cons(TLParen, OrYield(inner, [TRParen] + rest));
      Cons(TRParen, rest);
      OrComplete(inner, [TRParen] + rest);
    case Comparing(field, op, literal) =>
      Cons(TIdent(field), ComparingYield(op, literal, rest));
      ComparingComplete(field, op, literal, rest);
    case InRange(field, lo, hi) =>
      Cons(TIdent(field), InRangeYield(lo, hi, rest));
      InRangeComplete(field, lo, hi, rest);
    case OneOf(field, literals) =>
      Cons(TIdent(field), OneOfYield(literals, rest));
      OneOfComplete(field, literals, rest);
  }

  lemma LiteralComplete(t: Token, rest: seq<Token>)
    requires IsLiteral(t)
    ensures Literal([t] + rest) == Yes(LiteralValue(t), rest)
  {
    Cons(t, rest);
  }

  lemma ComparingComplete(field: string, op: Comparison, literal: Token, rest: seq<Token>)
    requires IsLiteral(literal)
    ensures LeafOf(field, ComparingYield(op, literal, rest)) == Yes(Leaf(field, op, [LiteralValue(literal)]), rest)
  {
    LiteralComplete(literal, rest);
    hide Literal, LiteralValue, IsLiteral;
    Cons(TOp(op), [literal] + rest);
  }

  lemma InRangeComplete(field: string, lo: Token, hi: Token, rest: seq<Token>)
    requires IsLiteral(lo) && IsLiteral(hi)
    ensures LeafOf(field, InRangeYield(lo, hi, rest))
         == Yes(Leaf(field, Between, [LiteralValue(lo), LiteralValue(hi)]), rest)
  {
    LiteralComplete(hi, rest);
    LiteralComplete(lo, [TAnd] + ([hi] + rest));
    hide Literal, LiteralValue, IsLiteral;
    Cons(TAnd, [hi] + rest);
    Cons(TBetween, [lo] + ([TAnd] + ([hi] + rest)));
  }

  lemma OneOfComplete(field: string, literals: seq<Token>, rest: seq<Token>)
    requires literals != [] && Literals(literals)
    ensures LeafOf(field, OneOfYield(literals, rest)) == Yes(Leaf(field, In, LiteralValues(literals)), rest)
  {
    Cons(TRParen, rest);
    InListComplete([], literals, [TRParen] + rest);
    hide InList, LiteralValues, Commas, Literals;
    assert [] + LiteralValues(literals) == LiteralValues(literals);
    var inner := Commas(literals, [TRParen] + rest);
    Cons(TLParen, inner);
    Cons(TIn, [TLParen] + inner);
    assert ([TIn] + ([TLParen] + inner))[2..] == inner;
  }

  lemma {:induction false} InListComplete(vs: seq<Value>, literals: seq<Token>, rest: seq<Token>)
    requires literals != [] && Literals(literals) && Head(rest) != TComma
    ensures InList(vs, Commas(literals, rest)) == Yes(vs + LiteralValues(literals), rest)
    decreases |literals|
  {
    var v := LiteralValue(literals[0]);
    if |literals| == 1 {
      LiteralComplete(literals[0], rest);
      assert LiteralValues(literals) == [v];
    } else {
      var tail := Commas(literals[1..], rest);
      LiteralComplete(literals[0], [TComma] + tail);
      Cons(TComma, tail);
      hide Literal, LiteralValue, IsLiteral;
      InListComplete(vs + [v], literals[1..], rest);
      Regroup(vs, v, LiteralValues(literals[1..]));
    }
  }

  // ----- main results

  ghost predicate Derives(ts: seq<Token>, n: Node) {
    exists e: OrTree :: OrWf(e) && OrYield(e, []) == ts && OrNode(e) == n
  }

  /** The parser accepts exactly the documented grammar: a filter parses to `n` if and only if its
      first token lexes and the tokens before the end, or before the first lexical error, derive `n`. */
  lemma ParserMeetsGrammar(s: string, n: Node)
    ensures Parse(s) == Ok(n) <==> Lex(s, 0).Lexed? && Derives(Tokens(s, 0), n)
  {
    hide Tokens, Lex;
    var ts := Tokens(s, 0);
    if Parse(s) == Ok(n) {
      var e := OrSound(ts);
    }
    if Derives(ts, n) {
      var e: OrTree :| OrWf(e) && OrYield(e, []) == ts && OrNode(e) == n;
      OrComplete(e, []);
    }
  }

  /** The grammar is unambiguous: no token sequence derives two nodes. */
  lemma GrammarIsUnambiguous(ts: seq<Token>, n: Node, m: Node)
    requires Derives(ts, n) && Derives(ts, m)
    ensures n == m
  {
    var d: OrTree :| OrWf(d) && OrYield(d, []) == ts && OrNode(d) == n;
    var e: OrTree :| OrWf(e) && OrYield(e, []) == ts && OrNode(e) == m;
    OrComplete(d, []);
    OrComplete(e, []);
  }
}

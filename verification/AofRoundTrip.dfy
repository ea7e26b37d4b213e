/** Printing a filter and parsing it back. */
module AofRoundTrip {
  import opened Text
  import opened Aof
  import opened AofLexer
  import opened AofParser
  import opened AofGrammar
  import opened AofPrinter

  // ----- the filters that survive

  predicate FieldName(f: string) {
    f != "" && !IsDigit(f[0]) && All(f, IsWord) && Word(f) == TIdent(f)
  }

  /** An integer the lexer can read back, or a string without the printer's quote. */
  predicate PrintableValue(v: Value) {
    match v
    case IntValue(i) => 0 <= i <= INT64_MAX
    case RealValue(_) => false
    case StrValue(s) => '\'' !in s
  }

  predicate PrintableValues(vs: seq<Value>) { forall k | 0 <= k < |vs| :: PrintableValue(vs[k]) }

  /** As many literals as the operator takes. */
  predicate RightArity(op: Op, n: nat) { if op == Between then n == 2 else if op == In then n >= 1 else n == 1 }

  predicate Printable(n: Node): (p: bool)
    ensures p ==> HasLiterals(n)
  {
    match n
    case Leaf(field, op, values) => FieldName(field) && RightArity(op, |values|) && PrintableValues(values)
    case And(kids) => |kids| >= 2 && forall k | 0 <= k < |kids| :: Printable(kids[k])
    case Or(kids) => |kids| >= 2 && forall k | 0 <= k < |kids| :: Printable(kids[k])
    case Not(child) => Printable(child)
  }

  // ----- the derivation of a printed filter

  function LiteralToken(v: Value): (t: Token)
    ensures IsLiteral(t)
  {
    match v
    case StrValue(s) => TString(s)
    case _ => TNumber(v)
  }

  function LiteralTokens(vs: seq<Value>): (ts: seq<Token>)
    ensures |ts| == |vs| && Literals(ts)
  {
    if vs == [] then [] else [LiteralToken(vs[0])] + LiteralTokens(vs[1..])
  }

  function Tree(n: Node): (e: NotTree)
    requires Printable(n)
    ensures NotWf(e)
  {
    match n
    case Leaf(field, op, values) =>
      if op == Between then InRange(field, LiteralToken(values[0]), LiteralToken(values[1]))
      else if op == In then OneOf(field, LiteralTokens(values))
      else Comparing(field, op, LiteralToken(values[0]))
    case And(kids) => Parens(OrTree([AndTree(Trees(kids))]))
    case Or(kids) => Parens(OrTree(Branches(kids)))
    case Not(child) => Negation(Tree(child))
  }

  function Trees(kids: seq<Node>): (es: seq<NotTree>)
    requires forall k | 0 <= k < |kids| :: Printable(kids[k])
    ensures |es| == |kids| && forall k | 0 <= k < |es| :: NotWf(es[k])
  {
    if kids == [] then [] else [Tree(kids[0])] + Trees(kids[1..])
  }

  function Branches(kids: seq<Node>): (es: seq<AndTree>)
    requires forall k | 0 <= k < |kids| :: Printable(kids[k])
    ensures |es| == |kids| && forall k | 0 <= k < |es| :: AndWf(es[k])
  {
    if kids == [] then [] else [AndTree([Tree(kids[0])])] + Branches(kids[1..])
  }

  lemma {:induction false} LiteralBack(vs: seq<Value>)
    ensures LiteralValues(LiteralTokens(vs)) == vs
  {
    if vs != [] {
      LiteralBack(vs[1..]);
    }
  }

  /** The derivation of a filter derives the filter. */
  lemma {:induction false} TreeBack(n: Node)
    requires Printable(n)
    ensures NotNode(Tree(n)) == n
  {
    match n
    case Leaf(field, op, values) =>
      LiteralBack(values);
    case And(kids) =>
      TreesBack(kids);
      assert OrNode(OrTree([AndTree(Trees(kids))])) == AndNode(AndTree(Trees(kids)));
    case Or(kids) =>
      BranchesBack(kids);
    case Not(child) =>
      TreeBack(child);
  }

  lemma {:induction false} TreesBack(kids: seq<Node>)
    requires forall k | 0 <= k < |kids| :: Printable(kids[k])
    ensures NotNodes(Trees(kids)) == kids
  {
    if kids != [] {
      TreeBack(kids[0]);
      TreesBack(kids[1..]);
    }
  }

  lemma {:induction false} BranchesBack(kids: seq<Node>)
    requires forall k | 0 <= k < |kids| :: Printable(kids[k])
    ensures AndNodes(Branches(kids)) == kids
  {
    if kids != [] {
      TreeBack(kids[0]);
      BranchesBack(kids[1..]);
      assert NotNodes([Tree(kids[0])]) == [NotNode(Tree(kids[0]))];
    }
  }

  // ----- lexing a piece of a text

  /** `t` stands at position `a` of `s`. */
  predicate At(s: string, a: nat, t: string) { a + |t| <= |s| && s[a..a + |t|] == t }

  lemma AtSplit(s: string, a: nat, x: string, y: string)
    requires At(s, a, x + y)
    ensures At(s, a, x) && At(s, a + |x|, y)
  {
    assert s[a..a + |x + y|][..|x|] == s[a..a + |x|];
    assert s[a..a + |x + y|][|x|..] == s[a + |x|..a + |x| + |y|];
  }

  lemma AtIndex(s: string, a: nat, t: string, k: nat)
    requires At(s, a, t) && k < |t|
    ensures s[a + k] == t[k]
  {
    assert s[a..a + |t|][k] == s[a + k];
  }

  /** What follows a printed literal or filter. */
  predicate Delimited(s: string, b: nat) { b == |s| || (b < |s| && s[b] in {' ', ')', ','}) }

  lemma LexSpace(s: string, a: nat)
    requires a < |s| && IsSpace(s[a])
    ensures Tokens(s, a) == Tokens(s, a + 1)
  {
    assert Span(s, a, IsSpace) == Span(s, a + 1, IsSpace);
  }

  /** One token, which starts at `a`. */
  lemma LexOne(s: string, a: nat, t: Token, b: nat)
    requires a < |s| && !IsSpace(s[a]) && LexAt(s, a) == Lexed(t, b) && t != TEnd
    ensures Tokens(s, a) == [t] + Tokens(s, b)
  {
    assert Span(s, a, IsSpace) == a;
  }

  lemma LexWordAt(s: string, a: nat, w: string)
    requires At(s, a, w) && w != "" && !IsDigit(w[0]) && All(w, IsWord)
    requires a + |w| == |s| || !IsWord(s[a + |w|])
    ensures Tokens(s, a) == [Word(w)] + Tokens(s, a + |w|)
  {
    hide Tokens, Word;
    var b := a + |w|;
    forall k | a <= k < b
      ensures IsWord(s[k])
    {
      AtIndex(s, a, w, k - a);
    }
    AtIndex(s, a, w, 0);
    SpanIs(s, a, b, IsWord);
    LexOne(s, a, Word(w), b);
  }

  lemma LexIntegerAt(s: string, a: nat, i: int)
    requires 0 <= i <= INT64_MAX && At(s, a, Signed(i)) && Delimited(s, a + |Signed(i)|)
    ensures Tokens(s, a) == [TNumber(IntValue(i))] + Tokens(s, a + |Signed(i)|)
  {
    hide Tokens, Decimal;
    var d := Decimal(i);
    var b := a + |d|;
    forall k | a <= k < b
      ensures IsDigit(s[k])
    {
      AtIndex(s, a, d, k - a);
    }
    SpanIs(s, a, b, IsDigit);
    NumeralOfDecimal(i);
    LexOne(s, a, TNumber(IntValue(i)), b);
  }

  lemma LexStringAt(s: string, a: nat, t: string)
    requires At(s, a, "'" + (t + "'")) && '\'' !in t
    ensures Tokens(s, a) == [TString(t)] + Tokens(s, a + |"'" + (t + "'")|)
  {
    hide Tokens, LexNumber, LexDot, LexSymbol, LexWord;
    AtSplit(s, a, "'", t + "'");
    AtSplit(s, a + 1, t, "'");
    AtIndex(s, a, "'", 0);
    var b := a + 1 + |t|;
    AtIndex(s, b, "'", 0);
    forall k | a + 1 <= k < b
      ensures s[k] != '\''
    {
      AtIndex(s, a + 1, t, k - (a + 1));
    }
    SpanIs(s, a + 1, b, OtherThan('\''));
    LexOne(s, a, TString(t), b + 1);
  }

  lemma LexValueAt(s: string, a: nat, v: Value, fmt: RealFormat)
    requires PrintableValue(v) && At(s, a, ValueText(v, fmt)) && Delimited(s, a + |ValueText(v, fmt)|)
    ensures Tokens(s, a) == [LiteralToken(v)] + Tokens(s, a + |ValueText(v, fmt)|)
  {
    hide Tokens, Signed;
    match v
    case IntValue(i) => LexIntegerAt(s, a, i);
    case StrValue(t) => LexStringAt(s, a, t);
  }

  lemma {:induction false} UpperFixed(w: string)
    requires forall k | 0 <= k < |w| :: 'A' <= w[k] <= 'Z'
    ensures Upper(w) == w
  {
    if w != [] {
      UpperFixed(w[1..]);
    }
  }

  lemma Keywords()
    ensures Word("AND") == TAnd && Word("OR") == TOr && Word("NOT") == TNot
    ensures Word("BETWEEN") == TBetween && Word("IN") == TIn
  {
    hide Upper;
    UpperFixed("AND");
    UpperFixed("OR");
    UpperFixed("NOT");
    UpperFixed("BETWEEN");
    UpperFixed("IN");
  }

  /** A word, a space and more text. */
  lemma LexWordThen(s: string, a: nat, w: string, rest: string)
    requires At(s, a, w + (" " + rest)) && w != "" && !IsDigit(w[0]) && All(w, IsWord)
    ensures Tokens(s, a) == [Word(w)] + Tokens(s, a + |w| + 1) && At(s, a + |w| + 1, rest)
  {
    hide At, Tokens, Word;
    AtSplit(s, a, w, " " + rest);
    AtSplit(s, a + |w|, " ", rest);
    AtIndex(s, a + |w|, " ", 0);
    LexWordAt(s, a, w);
    LexSpace(s, a + |w|);
  }

  /** A keyword between two spaces, and more text. */
  lemma LexKeywordThen(s: string, a: nat, w: string, separator: string, rest: string)
    requires separator == " " + (w + " ") && At(s, a, separator + rest)
    requires w != "" && !IsDigit(w[0]) && All(w, IsWord)
    ensures Tokens(s, a) == [Word(w)] + Tokens(s, a + |separator|) && At(s, a + |separator|, rest)
    ensures Delimited(s, a)
  {
    hide At, Tokens, Word;
    assert separator + rest == " " + (w + (" " + rest));
    AtSplit(s, a, " ", w + (" " + rest));
    AtIndex(s, a, " ", 0);
    LexSpace(s, a);
    LexWordThen(s, a + 1, w, rest);
  }

  lemma LexSymbolAt(s: string, a: nat, c: char, t: Token)
    requires a < |s| && s[a] == c
    requires (c == '(' && t == TLParen) || (c == ')' && t == TRParen) || (c == ',' && t == TComma)
    ensures Tokens(s, a) == [t] + Tokens(s, a + 1)
  {
    hide Tokens;
    LexOne(s, a, t, a + 1);
  }

  lemma LexComparisonThen(s: string, a: nat, op: Comparison, rest: string)
    requires At(s, a, OpText(op) + (" " + rest))
    ensures Tokens(s, a) == [TOp(op)] + Tokens(s, a + |OpText(op)| + 1) && At(s, a + |OpText(op)| + 1, rest)
  {
    hide At, Tokens;
    var o := OpText(op);
    AtSplit(s, a, o, " " + rest);
    AtSplit(s, a + |o|, " ", rest);
    AtIndex(s, a, o, 0);
    AtIndex(s, a + |o|, " ", 0);
    if |o| == 2 {
      AtIndex(s, a, o, 1);
    }
    LexOne(s, a, TOp(op), a + |o|);
    LexSpace(s, a + |o|);
  }

  // ----- lexing a printed leaf

  lemma LexComparing(op: Comparison, v: Value, s: string, a: nat, fmt: RealFormat)
    requires PrintableValue(v) && At(s, a, LeafText(op, [v], fmt)) && Delimited(s, a + |LeafText(op, [v], fmt)|)
    ensures Tokens(s, a) == ComparingYield(op, LiteralToken(v), Tokens(s, a + |LeafText(op, [v], fmt)|))
  {
    hide At, Tokens, ValueText, LiteralToken, PrintableValue, OpText;
    LexComparisonThen(s, a, op, ValueText(v, fmt));
    LexValueAt(s, a + |OpText(op)| + 1, v, fmt);
  }

  lemma LexInRange(lo: Value, hi: Value, s: string, a: nat, fmt: RealFormat)
    requires PrintableValue(lo) && PrintableValue(hi)
    requires At(s, a, LeafText(Between, [lo, hi], fmt)) && Delimited(s, a + |LeafText(Between, [lo, hi], fmt)|)
    ensures Tokens(s, a)
         == InRangeYield(LiteralToken(lo), LiteralToken(hi), Tokens(s, a + |LeafText(Between, [lo, hi], fmt)|))
  {
    hide At, Tokens, ValueText, LiteralToken, PrintableValue, Word;
    Keywords();
    var x, y := ValueText(lo, fmt), ValueText(hi, fmt);
    LexWordThen(s, a, "BETWEEN", x + (" AND " + y));
    AtSplit(s, a + 8, x, " AND " + y);
    assert " AND " == " " + ("AND" + " ");
    LexKeywordThen(s, a + 8 + |x|, "AND", " AND ", y);
    LexValueAt(s, a + 8, lo, fmt);
    LexValueAt(s, a + 13 + |x|, hi, fmt);
  }

  lemma {:induction false} LexValueList(vs: seq<Value>, s: string, a: nat, fmt: RealFormat)
    requires vs != [] && PrintableValues(vs) && At(s, a, ValueList(vs, fmt))
    requires a + |ValueList(vs, fmt)| < |s| && s[a + |ValueList(vs, fmt)|] == ')'
    ensures Tokens(s, a) == Commas(LiteralTokens(vs), Tokens(s, a + |ValueList(vs, fmt)|))
  {
    hide At, Tokens, ValueText, LiteralToken, PrintableValue;
    var x := ValueText(vs[0], fmt);
    if |vs| == 1 {
      LexValueAt(s, a, vs[0], fmt);
    } else {
      var rest := ValueList(vs[1..], fmt);
      AtSplit(s, a, x, ", " + rest);
      AtSplit(s, a + |x|, ", ", rest);
      AtIndex(s, a + |x|, ", ", 0);
      AtIndex(s, a + |x|, ", ", 1);
      LexValueAt(s, a, vs[0], fmt);
      LexSymbolAt(s, a + |x|, ',', TComma);
      LexSpace(s, a + |x| + 1);
      LexValueList(vs[1..], s, a + |x| + 2, fmt);
    }
  }

  lemma LexOneOf(vs: seq<Value>, s: string, a: nat, fmt: RealFormat)
    requires vs != [] && PrintableValues(vs) && At(s, a, LeafText(In, vs, fmt))
    ensures Tokens(s, a) == OneOfYield(LiteralTokens(vs), Tokens(s, a + |LeafText(In, vs, fmt)|))
  {
    hide At, Tokens, ValueList, LiteralTokens, PrintableValues, Word;
    var x := ValueList(vs, fmt);
    assert " (" + (x + ")") == " " + ("(" + (x + ")"));
    LexWordThen(s, a, "IN", "(" + (x + ")"));
    LexParens(s, a + 3, x);
    LexValueList(vs, s, a + 4, fmt);
    Keywords();
  }

  lemma LexLeaf(field: string, op: Op, values: seq<Value>, s: string, a: nat, fmt: RealFormat)
    requires Printable(Leaf(field, op, values))
    requires var t := Show(Leaf(field, op, values), fmt); At(s, a, t) && Delimited(s, a + |t|)
    ensures var n := Leaf(field, op, values); Tokens(s, a) == NotYield(Tree(n), Tokens(s, a + |Show(n, fmt)|))
  {
    hide At, Tokens, LeafText, LiteralToken, PrintableValue, ComparingYield, InRangeYield, OneOfYield;
    LexWordThen(s, a, field, LeafText(op, values, fmt));
    var b := a + |field| + 1;
    if op == Between {
      assert values == [values[0], values[1]];
      LexInRange(values[0], values[1], s, b, fmt);
    } else if op == In {
      LexOneOf(values, s, b, fmt);
    } else {
      assert values == [values[0]];
      LexComparing(op, values[0], s, b, fmt);
    }
  }

  // ----- lexing a printed filter

  lemma ConjunctionYield(kids: seq<Node>, rest: seq<Token>)
    requires |kids| >= 2 && forall k | 0 <= k < |kids| :: Printable(kids[k])
    ensures NotYield(Tree(And(kids)), rest) == [TLParen] + AndYield(AndTree(Trees(kids)), [TRParen] + rest)
  {
    hide AndYield, Trees;
    SingleBranch(AndTree(Trees(kids)), [TRParen] + rest);
  }

  lemma DisjunctionYield(kids: seq<Node>, rest: seq<Token>)
    requires |kids| >= 2 && forall k | 0 <= k < |kids| :: Printable(kids[k])
    ensures NotYield(Tree(Or(kids)), rest) == [TLParen] + OrYield(OrTree(Branches(kids)), [TRParen] + rest)
  {
    hide OrYield, Branches;
  }

  lemma {:induction false} LexFilter(n: Node, s: string, a: nat, fmt: RealFormat)
    requires Printable(n) && At(s, a, Show(n, fmt)) && Delimited(s, a + |Show(n, fmt)|)
    ensures Tokens(s, a) == NotYield(Tree(n), Tokens(s, a + |Show(n, fmt)|))
    decreases n, 1
  {
    hide At, Tokens, Word, LeafText, FieldName, PrintableValues, RightArity;
    match n
    case Leaf(field, op, values) =>
      hide NotYield;
      LexLeaf(field, op, values, s, a, fmt);
    case And(kids) =>
      hide ShowAll, NotYield, AndYield, Tree, Trees;
      var x := ShowAll(kids, " AND ", fmt);
      LexParens(s, a, x);
      LexConjunction(kids, s, a + 1, fmt);
      ConjunctionYield(kids, Tokens(s, a + 2 + |x|));
    case Or(kids) =>
      hide ShowAll, NotYield, OrYield, Tree, Branches;
      var x := ShowAll(kids, " OR ", fmt);
      LexParens(s, a, x);
      LexDisjunction(kids, s, a + 1, fmt);
      DisjunctionYield(kids, Tokens(s, a + 2 + |x|));
    case Not(child) =>
      hide NotYield, Tree;
      LexNegation(s, a, Show(child, fmt));
      LexFilter(child, s, a + 4, fmt);
      NegationYield(child, Tokens(s, a + 4 + |Show(child, fmt)|));
  }

  lemma NegationYield(child: Node, rest: seq<Token>)
    requires Printable(child)
    ensures NotYield(Tree(Not(child)), rest) == [TNot] + NotYield(Tree(child), rest)
  {}

  lemma LexNegation(s: string, a: nat, x: string)
    requires At(s, a, "NOT " + x)
    ensures Tokens(s, a) == [TNot] + Tokens(s, a + 4) && At(s, a + 4, x)
  {
    hide At, Tokens, Word;
    assert "NOT " + x == "NOT" + (" " + x);
    LexWordThen(s, a, "NOT", x);
    Keywords();
  }

  lemma SingleBranch(e: AndTree, rest: seq<Token>)
    requires AndWf(e)
    ensures OrYield(OrTree([e]), rest) == AndYield(e, rest)
  {}

  lemma SingleTree(e: NotTree, rest: seq<Token>)
    requires NotWf(e)
    ensures AndYield(AndTree([e]), rest) == NotYield(e, rest)
  {}

  lemma LexParens(s: string, a: nat, x: string)
    requires At(s, a, "(" + (x + ")"))
    ensures At(s, a + 1, x) && a + 1 + |x| < |s| && s[a + 1 + |x|] == ')'
    ensures Tokens(s, a) == [TLParen] + Tokens(s, a + 1)
    ensures Tokens(s, a + 1 + |x|) == [TRParen] + Tokens(s, a + 2 + |x|)
  {
    hide At, Tokens;
    AtSplit(s, a, "(", x + ")");
    AtSplit(s, a + 1, x, ")");
    AtIndex(s, a, "(", 0);
    AtIndex(s, a + 1 + |x|, ")", 0);
    LexSymbolAt(s, a, '(', TLParen);
    LexSymbolAt(s, a + 1 + |x|, ')', TRParen);
  }

  lemma ConjunctionStep(kids: seq<Node>, rest: seq<Token>)
    requires kids != [] && forall k | 0 <= k < |kids| :: Printable(kids[k]) && HasLiterals(kids[k])
    ensures AndYield(AndTree(Trees(kids)), rest) == NotYield(Tree(kids[0]),
      if |kids| == 1 then rest else [TAnd] + AndYield(AndTree(Trees(kids[1..])), rest))
  {
    hide Tree, NotYield;
    assert Trees(kids)[0] == Tree(kids[0]) && Trees(kids)[1..] == Trees(kids[1..]);
  }

  lemma DisjunctionStep(kids: seq<Node>, rest: seq<Token>)
    requires kids != [] && forall k | 0 <= k < |kids| :: Printable(kids[k]) && HasLiterals(kids[k])
    ensures OrYield(OrTree(Branches(kids)), rest) == NotYield(Tree(kids[0]),
      if |kids| == 1 then rest else [TOr] + OrYield(OrTree(Branches(kids[1..])), rest))
  {
    hide Tree, NotYield, AndYield;
    assert Branches(kids)[0] == AndTree([Tree(kids[0])]) && Branches(kids)[1..] == Branches(kids[1..]);
    SingleTree(Tree(kids[0]), OrYieldTail(Branches(kids)[1..], rest));
  }

  lemma {:induction false} LexConjunction(kids: seq<Node>, s: string, a: nat, fmt: RealFormat)
    requires kids != [] && forall k | 0 <= k < |kids| :: Printable(kids[k]) && HasLiterals(kids[k])
    requires var b := a + |ShowAll(kids, " AND ", fmt)|; At(s, a, ShowAll(kids, " AND ", fmt)) && b < |s| && s[b] == ')'
    ensures Tokens(s, a) == AndYield(AndTree(Trees(kids)), Tokens(s, a + |ShowAll(kids, " AND ", fmt)|))
    decreases kids, 0
  {
    hide At, Tokens, Word, Show, Tree, Trees, NotYield, AndYield, Printable, HasLiterals;
    var x := Show(kids[0], fmt);
    ConjunctionStep(kids, Tokens(s, a + |ShowAll(kids, " AND ", fmt)|));
    if |kids| > 1 {
      var rest := ShowAll(kids[1..], " AND ", fmt);
      assert " AND " == " " + ("AND" + " ");
      AtSplit(s, a, x, " AND " + rest);
      LexKeywordThen(s, a + |x|, "AND", " AND ", rest);
      LexConjunction(kids[1..], s, a + |x| + 5, fmt);
      Keywords();
    }
    LexFilter(kids[0], s, a, fmt);
  }

  lemma {:induction false} LexDisjunction(kids: seq<Node>, s: string, a: nat, fmt: RealFormat)
    requires kids != [] && forall k | 0 <= k < |kids| :: Printable(kids[k]) && HasLiterals(kids[k])
    requires var b := a + |ShowAll(kids, " OR ", fmt)|; At(s, a, ShowAll(kids, " OR ", fmt)) && b < |s| && s[b] == ')'
    ensures Tokens(s, a) == OrYield(OrTree(Branches(kids)), Tokens(s, a + |ShowAll(kids, " OR ", fmt)|))
    decreases kids, 0
  {
    hide At, Tokens, Word, Show, Tree, Branches, NotYield, OrYield, Printable, HasLiterals;
    var x := Show(kids[0], fmt);
    DisjunctionStep(kids, Tokens(s, a + |ShowAll(kids, " OR ", fmt)|));
    if |kids| > 1 {
      var rest := ShowAll(kids[1..], " OR ", fmt);
      assert " OR " == " " + ("OR" + " ");
      AtSplit(s, a, x, " OR " + rest);
      LexKeywordThen(s, a + |x|, "OR", " OR ", rest);
      LexDisjunction(kids[1..], s, a + |x| + 4, fmt);
      Keywords();
    }
    LexFilter(kids[0], s, a, fmt);
  }

  // ----- main result

  /** A printable filter survives printing and parsing unchanged. */
  lemma RoundTrip(n: Node, fmt: RealFormat)
    requires Printable(n)
    ensures Parse(Show(n, fmt)) == Ok(n)
  {
    hide Tokens, Lex, Show, Tree, OrYield, OrNode, OrWf, Parse;
    var s := Show(n, fmt);
    assert s[0..0 + |s|] == s;
    LexFilter(n, s, 0, fmt);
    EndOfTokens(s);
    DerivesItself(n);
    ParserMeetsGrammar(s, n);
  }

  lemma EndOfTokens(s: string)
    ensures Tokens(s, |s|) == []
    ensures Tokens(s, 0) != [] ==> Lex(s, 0).Lexed?
  {}

  lemma DerivesItself(n: Node)
    requires Printable(n)
    ensures Derives(NotYield(Tree(n), []), n) && NotYield(Tree(n), []) != []
  {
    hide Tree, NotYield, NotWf;
    TreeBack(n);
    var e := OrTree([AndTree([Tree(n)])]);
    assert NotNodes([Tree(n)]) == [n];
    assert AndNodes(e.ands) == [n];
    SingleBranch(e.ands[0], []);
    SingleTree(Tree(n), []);
    NotEmpty(Tree(n));
    assert OrWf(e) && OrYield(e, []) == NotYield(Tree(n), []) && OrNode(e) == n;
  }

  lemma NotEmpty(e: NotTree)
    requires NotWf(e)
    ensures NotYield(e, []) != []
  {}
}

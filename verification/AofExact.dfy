/** Exactly which filters survive printing and parsing. */
module AofExact {
  import opened Text
  import opened Aof
  import opened AofLexer
  import opened AofParser
  import opened AofGrammar
  import opened AofPrinter
  import opened AofRoundTrip

  // ----- the literals of a token sequence and of a filter, from left to right

  function LiteralsOf(ts: seq<Token>): seq<Value> {
    if ts == [] then []
    else if IsLiteral(ts[0]) then [LiteralValue(ts[0])] + LiteralsOf(ts[1..])
    else LiteralsOf(ts[1..])
  }

  function ValuesOf(n: Node): seq<Value> {
    match n
    case Leaf(_, _, values) => values
    case And(kids) => ValuesOfAll(kids)
    case Or(kids) => ValuesOfAll(kids)
    case Not(child) => ValuesOf(child)
  }

  function ValuesOfAll(kids: seq<Node>): seq<Value> {
    if kids == [] then [] else ValuesOf(kids[0]) + ValuesOfAll(kids[1..])
  }

  lemma {:induction false} ValuesOfSnoc(kids: seq<Node>, n: Node)
    ensures ValuesOfAll(kids + [n]) == ValuesOfAll(kids) + ValuesOf(n)
  {
    if kids != [] {
      ValuesOfSnoc(kids[1..], n);
      assert (kids + [n])[1..] == kids[1..] + [n];
    }
  }

  // ----- what the lexer and the parser can produce

  predicate FitsLexer(v: Value) { v.IntValue? ==> 0 <= v.i <= INT64_MAX }

  predicate FromLexer(t: Token) {
    match t
    case TIdent(f) => FieldName(f)
    case TNumber(v) => !v.StrValue? && FitsLexer(v)
    case _ => true
  }

  predicate AllFromLexer(ts: seq<Token>) { forall k | 0 <= k < |ts| :: FromLexer(ts[k]) }

  /** What every filter that comes out of the parser satisfies. */
  predicate Shaped(n: Node) {
    match n
    case Leaf(field, op, values) =>
      FieldName(field) && RightArity(op, |values|) && forall k | 0 <= k < |values| :: FitsLexer(values[k])
    case And(kids) => |kids| >= 2 && forall k | 0 <= k < |kids| :: Shaped(kids[k])
    case Or(kids) => |kids| >= 2 && forall k | 0 <= k < |kids| :: Shaped(kids[k])
    case Not(child) => Shaped(child)
  }

  predicate AllShaped(kids: seq<Node>) { forall k | 0 <= k < |kids| :: Shaped(kids[k]) }

  lemma LexedIsFromLexer(s: string, i: nat)
    requires i <= |s| && Lex(s, i).Lexed?
    ensures FromLexer(Lex(s, i).token)
  {
    hide FieldName, LexNumber, Word, DotKeyword;
    var j := Span(s, i, IsSpace);
    if j < |s| {
      NumberFromLexer(s, j);
      if IsAlpha(s[j]) || s[j] == '_' {
        WordFromLexer(s, j);
      }
      if LexDot(s, j).Lexed? {
        DotFromLexer(s, j);
      }
    }
  }

  lemma NumberFromLexer(s: string, i: nat)
    requires i < |s|
    ensures LexNumber(s, i).Lexed? && FromLexer(LexNumber(s, i).token)
  {}

  lemma DotFromLexer(s: string, i: nat)
    requires i < |s| && LexDot(s, i).Lexed?
    ensures FromLexer(LexDot(s, i).token)
  {
    NumberFromLexer(s, i);
  }

  lemma WordFromLexer(s: string, i: nat)
    requires i < |s| && IsWord(s[i]) && !IsDigit(s[i])
    ensures FromLexer(LexWord(s, i).token)
  {
    var k := Span(s, i, IsWord);
    assert s[i..k][0] == s[i];
    assert All(s[i..k], IsWord);
  }

  lemma {:induction false} TokensAreFromLexer(s: string, i: nat)
    requires i <= |s|
    ensures AllFromLexer(Tokens(s, i))
    decreases |s| - i
  {
    hide FromLexer, Lex;
    var r := Lex(s, i);
    if r.Lexed? && r.token != TEnd {
      LexedIsFromLexer(s, i);
      TokensAreFromLexer(s, r.next);
    }
  }

  // ----- the parser keeps the literals in order

  /** The literals and the tokens that a parse accounts for. */
  ghost predicate Accounts(ts: seq<Token>, p: Parsed<Node>) {
    p.Yes? ==>
      && LiteralsOf(ts) == ValuesOf(p.value) + LiteralsOf(p.rest)
      && (AllFromLexer(ts) ==> Shaped(p.value) && AllFromLexer(p.rest))
  }

  ghost predicate AccountsTail(kids: seq<Node>, ts: seq<Token>, p: Parsed<Node>) {
    p.Yes? ==>
      && ValuesOfAll(kids) + LiteralsOf(ts) == ValuesOf(p.value) + LiteralsOf(p.rest)
      && (AllShaped(kids) && AllFromLexer(ts) ==> Shaped(p.value) && AllFromLexer(p.rest))
  }

  lemma Uncounted(ts: seq<Token>)
    requires Head(ts) != TEnd && !IsLiteral(Head(ts))
    ensures LiteralsOf(ts) == LiteralsOf(ts[1..]) && (AllFromLexer(ts) ==> AllFromLexer(ts[1..]))
  {}

  lemma {:induction false} OrAccounts(ts: seq<Token>)
    ensures Accounts(ts, OrExpr(ts))
    decreases |ts|, 4
  {
    AndAccounts(ts);
    if AndExpr(ts).Yes? {
      OrTailAccounts([AndExpr(ts).value], AndExpr(ts).rest);
      hide AndExpr, OrTail;
      assert ValuesOfAll([AndExpr(ts).value]) == ValuesOf(AndExpr(ts).value);
    }
  }

  lemma {:induction false} OrTailAccounts(kids: seq<Node>, ts: seq<Token>)
    requires kids != []
    ensures AccountsTail(kids, ts, OrTail(kids, ts))
    decreases |ts|, 5
  {
    if Head(ts) == TOr {
      Uncounted(ts);
      AndAccounts(ts[1..]);
      if AndExpr(ts[1..]).Yes? {
        var Yes(n, r) := AndExpr(ts[1..]);
        OrTailAccounts(kids + [n], r);
        assert OrTail(kids, ts) == OrTail(kids + [n], r);
        hide AndExpr, OrTail, Shaped, FromLexer, LiteralsOf, ValuesOf, ValuesOfAll;
        ValuesOfSnoc(kids, n);
        Assoc(ValuesOfAll(kids), ValuesOf(n), LiteralsOf(r));
      }
    } else if |kids| == 1 {
      assert ValuesOfAll(kids) == ValuesOf(kids[0]);
    }
  }

  lemma {:induction false} AndAccounts(ts: seq<Token>)
    ensures Accounts(ts, AndExpr(ts))
    decreases |ts|, 2
  {
    NotAccounts(ts);
    if NotExpr(ts).Yes? {
      AndTailAccounts([NotExpr(ts).value], NotExpr(ts).rest);
      hide NotExpr, AndTail;
      assert ValuesOfAll([NotExpr(ts).value]) == ValuesOf(NotExpr(ts).value);
    }
  }

  lemma {:induction false} AndTailAccounts(kids: seq<Node>, ts: seq<Token>)
    requires kids != []
    ensures AccountsTail(kids, ts, AndTail(kids, ts))
    decreases |ts|, 3
  {
    if Head(ts) == TAnd {
      Uncounted(ts);
      NotAccounts(ts[1..]);
      if NotExpr(ts[1..]).Yes? {
        var Yes(n, r) := NotExpr(ts[1..]);
        AndTailAccounts(kids + [n], r);
        assert AndTail(kids, ts) == AndTail(kids + [n], r);
        hide NotExpr, AndTail, Shaped, FromLexer, LiteralsOf, ValuesOf, ValuesOfAll;
        ValuesOfSnoc(kids, n);
        Assoc(ValuesOfAll(kids), ValuesOf(n), LiteralsOf(r));
      }
    } else if |kids| == 1 {
      assert ValuesOfAll(kids) == ValuesOf(kids[0]);
    }
  }

  lemma {:induction false} NotAccounts(ts: seq<Token>)
    ensures Accounts(ts, NotExpr(ts))
    decreases |ts|, 1
  {
    match Head(ts)
    case TNot =>
      Uncounted(ts);
      NotAccounts(ts[1..]);
    case TLParen =>
      Uncounted(ts);
      OrAccounts(ts[1..]);
      var p := OrExpr(ts[1..]);
      if p.Yes? && Head(p.rest) == TRParen {
        Uncounted(p.rest);
      }
    case TIdent(field) =>
      Uncounted(ts);
      LeafAccounts(field, ts[1..]);
    case _ =>
  }

  lemma LiteralAccounts(ts: seq<Token>)
    requires Literal(ts).Yes?
    ensures LiteralsOf(ts) == [Literal(ts).value] + LiteralsOf(Literal(ts).rest)
    ensures AllFromLexer(ts) ==> FitsLexer(Literal(ts).value) && AllFromLexer(Literal(ts).rest)
  {
    assert FromLexer(ts[0]) ==> FitsLexer(LiteralValue(ts[0]));
  }

  lemma {:induction false} InListAccounts(vs: seq<Value>, ts: seq<Token>)
    requires InList(vs, ts).Yes?
    ensures var Yes(ws, r) := InList(vs, ts);
      |ws| > |vs| && vs + LiteralsOf(ts) == ws + LiteralsOf(r)
      && (AllFromLexer(ts) && (forall k | 0 <= k < |vs| :: FitsLexer(vs[k]))
          ==> AllFromLexer(r) && forall k | 0 <= k < |ws| :: FitsLexer(ws[k]))
    decreases |ts|
  {
    LiteralAccounts(ts);
    var Yes(v, r) := Literal(ts);
    hide Literal;
    Regroup(vs, v, LiteralsOf(r));
    if Head(r) == TComma {
      Uncounted(r);
      InListAccounts(vs + [v], r[1..]);
    }
  }

  lemma LeafAccounts(field: string, ts: seq<Token>)
    ensures LeafOf(field, ts).Yes? ==>
      && LiteralsOf(ts) == ValuesOf(LeafOf(field, ts).value) + LiteralsOf(LeafOf(field, ts).rest)
      && (AllFromLexer(ts) && FieldName(field) ==> Shaped(LeafOf(field, ts).value) && AllFromLexer(LeafOf(field, ts).rest))
  {
    hide FromLexer, FieldName, FitsLexer;
    if LeafOf(field, ts).Yes? {
      Uncounted(ts);
      match Head(ts)
      case TBetween => InRangeAccounts(field, ts);
      case TIn => OneOfAccounts(field, ts);
      case TOp(op) => LiteralAccounts(ts[1..]);
    }
  }

  lemma InRangeAccounts(field: string, ts: seq<Token>)
    requires LeafOf(field, ts).Yes? && Head(ts) == TBetween
    ensures LiteralsOf(ts[1..]) == ValuesOf(LeafOf(field, ts).value) + LiteralsOf(LeafOf(field, ts).rest)
    ensures AllFromLexer(ts[1..]) && FieldName(field) ==>
      Shaped(LeafOf(field, ts).value) && AllFromLexer(LeafOf(field, ts).rest)
  {
    hide FromLexer, FieldName, FitsLexer, LiteralsOf;
    LiteralAccounts(ts[1..]);
    var Yes(lo, r) := Literal(ts[1..]);
    Uncounted(r);
    LiteralAccounts(r[1..]);
    var Yes(hi, r') := Literal(r[1..]);
    hide Literal;
    assert [lo] + ([hi] + LiteralsOf(r')) == [lo, hi] + LiteralsOf(r');
  }

  lemma OneOfAccounts(field: string, ts: seq<Token>)
    requires LeafOf(field, ts).Yes? && Head(ts) == TIn
    ensures LiteralsOf(ts[1..]) == ValuesOf(LeafOf(field, ts).value) + LiteralsOf(LeafOf(field, ts).rest)
    ensures AllFromLexer(ts[1..]) && FieldName(field) ==>
      Shaped(LeafOf(field, ts).value) && AllFromLexer(LeafOf(field, ts).rest)
  {
    hide FromLexer, FieldName, FitsLexer, LiteralsOf, Literal, InList;
    assert ts[1..][1..] == ts[2..];
    Uncounted(ts[1..]);
    InListAccounts([], ts[2..]);
    Uncounted(InList([], ts[2..]).rest);
    assert [] + LiteralsOf(ts[2..]) == LiteralsOf(ts[2..]);
  }

  /** Every filter that parses has the shape the grammar gives it. */
  lemma ParsedIsShaped(s: string, n: Node)
    requires Parse(s) == Ok(n)
    ensures Shaped(n) && LiteralsOf(Tokens(s, 0)) == ValuesOf(n)
  {
    hide Tokens, Lex, OrExpr;
    OrAccounts(Tokens(s, 0));
    TokensAreFromLexer(s, 0);
    assert ValuesOf(n) + [] == ValuesOf(n);
  }

  // ----- a string with a single quote is cut short

  predicate Quoted(v: Value) { v.StrValue? && '\'' in v.s }

  predicate WithoutReals(vs: seq<Value>) { forall k | 0 <= k < |vs| :: !vs[k].RealValue? }

  predicate NoReals(n: Node) { WithoutReals(ValuesOf(n)) }

  lemma PrefixShift<T>(before: seq<T>, vs: seq<T>, xs: seq<T>)
    requires !(vs <= xs)
    ensures !(before + vs <= before + xs)
  {
    if |vs| <= |xs| {
      assert vs != xs[..|vs|];
      var k :| 0 <= k < |vs| && vs[k] != xs[k];
      assert (before + vs)[|before| + k] != (before + xs)[|before| + k];
    }
  }

  lemma PrefixMore<T>(vs: seq<T>, more: seq<T>, xs: seq<T>)
    requires !(vs <= xs)
    ensures !(vs + more <= xs)
  {}

  lemma BadValue(s: string, a: nat, v: Value, more: seq<Value>, fmt: RealFormat)
    requires Quoted(v) && At(s, a, ValueText(v, fmt))
    ensures !([v] + more <= LiteralsOf(Tokens(s, a)))
  {
    hide LexNumber, LexDot, LexSymbol, LexWord;
    var t := v.s;
    AtSplit(s, a, "'", t + "'");
    AtSplit(s, a + 1, t, "'");
    AtIndex(s, a, "'", 0);
    var q :| 0 <= q < |t| && t[q] == '\'';
    AtIndex(s, a + 1, t, q);
    var j := Span(s, a + 1, OtherThan('\''));
    assert j <= a + 1 + q;
    LexOne(s, a, TString(s[a + 1..j]), j + 1);
    assert |s[a + 1..j]| < |t|;
    assert ([v] + more)[0] == v;
  }

  /** A printed literal and the comma behind it count as the literal. */
  lemma LiteralThenComma(v: Value, rest: string, s: string, a: nat, fmt: RealFormat)
    requires PrintableValue(v) && At(s, a, ValueText(v, fmt) + (", " + rest))
    ensures var b := a + |ValueText(v, fmt)| + 2;
      At(s, b, rest) && LiteralsOf(Tokens(s, a)) == [v] + LiteralsOf(Tokens(s, b))
  {
    hide Tokens, ValueText, LiteralToken, PrintableValue, LiteralsOf;
    var x := ValueText(v, fmt);
    AtSplit(s, a, x, ", " + rest);
    AtSplit(s, a + |x|, ", ", rest);
    AtIndex(s, a + |x|, ", ", 0);
    AtIndex(s, a + |x|, ", ", 1);
    LexValueAt(s, a, v, fmt);
    LexSymbolAt(s, a + |x|, ',', TComma);
    LexSpace(s, a + |x| + 1);
    LiteralCounts(v, Tokens(s, a + |x|));
    OtherSkipped(TComma, Tokens(s, a + |x| + 2));
  }

  lemma {:induction false} BadList(vs: seq<Value>, s: string, a: nat, fmt: RealFormat)
    requires At(s, a, ValueList(vs, fmt)) && Delimited(s, a + |ValueList(vs, fmt)|)
    requires forall k | 0 <= k < |vs| :: PrintableValue(vs[k]) || Quoted(vs[k])
    requires exists k :: 0 <= k < |vs| && Quoted(vs[k])
    ensures !(vs <= LiteralsOf(Tokens(s, a)))
    decreases |vs|
  {
    hide At, Tokens, ValueText, PrintableValue, Quoted, LiteralsOf;
    assert vs == [vs[0]] + vs[1..];
    if Quoted(vs[0]) {
      if |vs| > 1 { AtSplit(s, a, ValueText(vs[0], fmt), ", " + ValueList(vs[1..], fmt)); }
      BadValue(s, a, vs[0], vs[1..], fmt);
    } else {
      var k :| 0 <= k < |vs| && Quoted(vs[k]);
      var b := a + |ValueText(vs[0], fmt)| + 2;
      assert vs[1..][k - 1] == vs[k];
      LiteralThenComma(vs[0], ValueList(vs[1..], fmt), s, a, fmt);
      BadList(vs[1..], s, b, fmt);
      PrefixShift([vs[0]], vs[1..], LiteralsOf(Tokens(s, b)));
    }
  }

  lemma LiteralCounts(v: Value, ts: seq<Token>)
    requires PrintableValue(v)
    ensures LiteralsOf([LiteralToken(v)] + ts) == [v] + LiteralsOf(ts)
  {
    Cons(LiteralToken(v), ts);
  }

  lemma OtherSkipped(t: Token, ts: seq<Token>)
    requires !IsLiteral(t)
    ensures LiteralsOf([t] + ts) == LiteralsOf(ts)
  {
    assert ([t] + ts)[1..] == ts;
  }

  lemma LexedWordSkipped(s: string, a: nat, w: string, b: nat)
    requires b <= |s| && a <= |s| && Tokens(s, a) == [Word(w)] + Tokens(s, b) && !IsLiteral(Word(w))
    ensures LiteralsOf(Tokens(s, a)) == LiteralsOf(Tokens(s, b))
  {
    OtherSkipped(Word(w), Tokens(s, b));
  }

  lemma BadInRange(lo: Value, hi: Value, s: string, a: nat, fmt: RealFormat)
    requires At(s, a, LeafText(Between, [lo, hi], fmt)) && Delimited(s, a + |LeafText(Between, [lo, hi], fmt)|)
    requires (PrintableValue(lo) && Quoted(hi)) || Quoted(lo)
    ensures !([lo, hi] <= LiteralsOf(Tokens(s, a)))
  {
    hide At, Tokens, LiteralsOf, ValueText, LiteralToken, Quoted, PrintableValue, Word;
    Keywords();
    var x, y := ValueText(lo, fmt), ValueText(hi, fmt);
    LexWordThen(s, a, "BETWEEN", x + (" AND " + y));
    LexedWordSkipped(s, a, "BETWEEN", a + 8);
    AtSplit(s, a + 8, x, " AND " + y);
    assert [lo] + [hi] == [lo, hi];
    if Quoted(lo) {
      BadValue(s, a + 8, lo, [hi], fmt);
    } else {
      assert " AND " == " " + ("AND" + " ");
      LexKeywordThen(s, a + 8 + |x|, "AND", " AND ", y);
      LexValueAt(s, a + 8, lo, fmt);
      LexedWordSkipped(s, a + 8 + |x|, "AND", a + 13 + |x|);
      BadValue(s, a + 13 + |x|, hi, [], fmt);
      assert [hi] + [] == [hi];
      LiteralCounts(lo, Tokens(s, a + 8 + |x|));
      PrefixShift([lo], [hi], LiteralsOf(Tokens(s, a + 13 + |x|)));
    }
  }

  lemma BadOneOf(vs: seq<Value>, s: string, a: nat, fmt: RealFormat)
    requires At(s, a, LeafText(In, vs, fmt)) && Delimited(s, a + |LeafText(In, vs, fmt)|)
    requires forall k | 0 <= k < |vs| :: PrintableValue(vs[k]) || Quoted(vs[k])
    requires exists k :: 0 <= k < |vs| && Quoted(vs[k])
    ensures !(vs <= LiteralsOf(Tokens(s, a)))
  {
    hide At, Tokens, LiteralsOf, ValueList, Quoted, PrintableValue, Word;
    Keywords();
    var x := ValueList(vs, fmt);
    assert " (" + (x + ")") == " " + ("(" + (x + ")"));
    LexWordThen(s, a, "IN", "(" + (x + ")"));
    LexParens(s, a + 3, x);
    LexedWordSkipped(s, a, "IN", a + 3);
    OtherSkipped(TLParen, Tokens(s, a + 4));
    BadList(vs, s, a + 4, fmt);
  }

  lemma BadComparing(op: Comparison, v: Value, s: string, a: nat, fmt: RealFormat)
    requires At(s, a, LeafText(op, [v], fmt)) && Quoted(v)
    ensures !([v] <= LiteralsOf(Tokens(s, a)))
  {
    hide Tokens, LiteralsOf, ValueText, Quoted, OpText;
    LexComparisonThen(s, a, op, ValueText(v, fmt));
    OtherSkipped(TOp(op), Tokens(s, a + |OpText(op)| + 1));
    BadValue(s, a + |OpText(op)| + 1, v, [], fmt);
    assert [v] + [] == [v];
  }

  /** The only way for a shaped leaf without reals not to be printable. */
  lemma QuotedLiteral(field: string, op: Op, values: seq<Value>)
    requires var n := Leaf(field, op, values); Shaped(n) && NoReals(n) && !Printable(n)
    ensures forall k | 0 <= k < |values| :: PrintableValue(values[k]) || Quoted(values[k])
    ensures exists k :: 0 <= k < |values| && Quoted(values[k])
  {
    hide FieldName;
    assert ValuesOf(Leaf(field, op, values)) == values;
    assert forall k | 0 <= k < |values| :: FitsLexer(values[k]);
    var k :| 0 <= k < |values| && !PrintableValue(values[k]);
    assert Quoted(values[k]);
  }

  lemma BadLeaf(field: string, op: Op, values: seq<Value>, s: string, a: nat, fmt: RealFormat)
    requires var n := Leaf(field, op, values); Shaped(n) && NoReals(n) && HasLiterals(n) && !Printable(n)
    requires var t := Show(Leaf(field, op, values), fmt); At(s, a, t) && Delimited(s, a + |t|)
    ensures !(values <= LiteralsOf(Tokens(s, a)))
  {
    hide At, Tokens, LiteralsOf, LeafText, Quoted, PrintableValue, Word;
    QuotedLiteral(field, op, values);
    LexWordThen(s, a, field, LeafText(op, values, fmt));
    var b := a + |field| + 1;
    LexedWordSkipped(s, a, field, b);
    if op == Between {
      assert values == [values[0], values[1]];
      BadInRange(values[0], values[1], s, b, fmt);
    } else if op == In {
      BadOneOf(values, s, b, fmt);
    } else {
      assert values == [values[0]];
      BadComparing(op, values[0], s, b, fmt);
    }
  }

  /** The literals of a printable filter are all there. */
  lemma PrintableCounts(n: Node, rest: seq<Token>)
    requires Printable(n)
    ensures LiteralsOf(NotYield(Tree(n), rest)) == ValuesOf(n) + LiteralsOf(rest)
  {
    hide NotYield, Tree, LiteralsOf, ValuesOf, NotNode;
    TreeBack(n);
    NotComplete(Tree(n), rest);
    NotAccounts(NotYield(Tree(n), rest));
  }

  /** The literals of a filter whose strings hold a single quote are not all there. */
  lemma {:induction false} BadFilter(n: Node, s: string, a: nat, fmt: RealFormat)
    requires Shaped(n) && NoReals(n) && HasLiterals(n) && !Printable(n)
    requires At(s, a, Show(n, fmt)) && Delimited(s, a + |Show(n, fmt)|)
    ensures !(ValuesOf(n) <= LiteralsOf(Tokens(s, a)))
    decreases n, 1
  {
    hide At, Tokens, LiteralsOf, LeafText, Printable, Shaped, NoReals, HasLiterals, WithoutReals;
    Unbundle(n);
    match n
    case Leaf(field, op, values) =>
      BadLeaf(field, op, values, s, a, fmt);
    case And(kids) =>
      hide ShowAll;
      LexParens(s, a, ShowAll(kids, " AND ", fmt));
      OtherSkipped(TLParen, Tokens(s, a + 1));
      BadKids(kids, "AND", " AND ", s, a + 1, fmt);
    case Or(kids) =>
      hide ShowAll;
      LexParens(s, a, ShowAll(kids, " OR ", fmt));
      OtherSkipped(TLParen, Tokens(s, a + 1));
      BadKids(kids, "OR", " OR ", s, a + 1, fmt);
    case Not(child) =>
      LexNegation(s, a, Show(child, fmt));
      OtherSkipped(TNot, Tokens(s, a + 4));
      BadFilter(child, s, a + 4, fmt);
  }

  /** What a filter is, its members are. */
  lemma Unbundle(n: Node)
    requires Shaped(n) && NoReals(n) && HasLiterals(n) && !Printable(n)
    ensures n.And? || n.Or? ==>
      && AllShaped(n.kids) && (forall k | 0 <= k < |n.kids| :: HasLiterals(n.kids[k]))
      && WithoutReals(ValuesOfAll(n.kids)) && exists k :: 0 <= k < |n.kids| && !Printable(n.kids[k])
    ensures n.Not? ==> Shaped(n.child) && NoReals(n.child) && HasLiterals(n.child) && !Printable(n.child)
  {
    hide FieldName, RightArity, PrintableValues, FitsLexer, WithoutReals;
  }

  lemma NoRealsSplit(kids: seq<Node>)
    requires kids != [] && WithoutReals(ValuesOfAll(kids))
    ensures NoReals(kids[0]) && WithoutReals(ValuesOfAll(kids[1..]))
  {
    var v, w := ValuesOf(kids[0]), ValuesOfAll(kids[1..]);
    forall k | 0 <= k < |v| ensures !v[k].RealValue? { assert ValuesOfAll(kids)[k] == v[k]; }
    forall k | 0 <= k < |w| ensures !w[k].RealValue? { assert ValuesOfAll(kids)[|v| + k] == w[k]; }
  }

  lemma {:induction false} BadKids(kids: seq<Node>, w: string, separator: string, s: string, a: nat, fmt: RealFormat)
    requires (w == "AND" && separator == " AND ") || (w == "OR" && separator == " OR ")
    requires AllShaped(kids) && forall k | 0 <= k < |kids| :: HasLiterals(kids[k])
    requires WithoutReals(ValuesOfAll(kids))
    requires exists k :: 0 <= k < |kids| && !Printable(kids[k])
    requires At(s, a, ShowAll(kids, separator, fmt)) && Delimited(s, a + |ShowAll(kids, separator, fmt)|)
    ensures !(ValuesOfAll(kids) <= LiteralsOf(Tokens(s, a)))
    decreases kids, 0
  {
    hide At, Tokens, LiteralsOf, Show, Tree, NotYield, Word, Printable, HasLiterals, Shaped, NoReals, WithoutReals, ValuesOf;
    var x, values, more := Show(kids[0], fmt), ValuesOf(kids[0]), ValuesOfAll(kids[1..]);
    NoRealsSplit(kids);
    if |kids| > 1 {
      var rest := ShowAll(kids[1..], separator, fmt);
      assert " AND " == " " + ("AND" + " ") && " OR " == " " + ("OR" + " ");
      AtSplit(s, a, x, separator + rest);
      LexKeywordThen(s, a + |x|, w, separator, rest);
      if Printable(kids[0]) {
        var k :| 0 <= k < |kids| && !Printable(kids[k]);
        assert kids[1..][k - 1] == kids[k];
        BadKids(kids[1..], w, separator, s, a + |x| + |separator|, fmt);
        LexFilter(kids[0], s, a, fmt);
        PrintableCounts(kids[0], Tokens(s, a + |x|));
        Keywords();
        LexedWordSkipped(s, a + |x|, w, a + |x| + |separator|);
        PrefixShift(values, more, LiteralsOf(Tokens(s, a + |x|)));
      }
    }
    if !Printable(kids[0]) {
      BadFilter(kids[0], s, a, fmt);
      PrefixMore(values, more, LiteralsOf(Tokens(s, a)));
    }
  }

  // ----- main result

  /** A filter without reals survives printing and parsing exactly when it is printable: its field
      names are identifiers, every operator has its literals, conjunctions and disjunctions have at
      least two members, integers are non-negative and fit 64 bits, and no string holds a single quote. */
  lemma RoundTripExactly(n: Node, fmt: RealFormat)
    requires HasLiterals(n) && NoReals(n)
    ensures Parse(Show(n, fmt)) == Ok(n) <==> Printable(n)
  {
    hide Tokens, Show, LiteralsOf, ValuesOf, Parse, Printable, HasLiterals, Shaped, NoReals;
    var s := Show(n, fmt);
    if Printable(n) {
      RoundTrip(n, fmt);
    } else if Parse(s) == Ok(n) {
      ParsedIsShaped(s, n);
      assert s[0..0 + |s|] == s;
      BadFilter(n, s, 0, fmt);
      assert false;
    }
  }

  // ----- texts that do not lex

  /** Where the lexer stops: at the end of the text, or before the first token that does not lex. */
  function LexStop(s: string, i: nat): (e: nat)
    requires i <= |s|
    ensures i <= e <= |s|
    decreases |s| - i
  {
    var r := Lex(s, i);
    if r.Lexed? && r.token != TEnd then LexStop(s, r.next) else i
  }

  lemma {:induction false} StopIsError(s: string, i: nat)
    requires i <= |s|
    ensures LexesCleanly(s, i) <==> Lex(s, LexStop(s, i)).Lexed?
    decreases |s| - i
  {
    hide Lex;
    var r := Lex(s, i);
    if r.Lexed? && r.token != TEnd {
      LexIsForward(s, i);
      StopIsError(s, r.next);
    }
  }

  lemma LexIsForward(s: string, i: nat)
    requires i <= |s|
    ensures var r := Lex(s, i); r.Lexed? && r.token != TEnd ==> i < r.next <= |s|
  {}

  /** A text that lexes is accepted exactly when the whole of it derives a tree.  Any other text is
      accepted, without what follows the lexical error, exactly when that error is not at its first token
      and the tokens before it derive a tree. */
  lemma AcceptedExactly(s: string, n: Node)
    ensures LexesCleanly(s, 0) ==> (Parse(s) == Ok(n) <==> Derives(Tokens(s, 0), n))
    ensures !LexesCleanly(s, 0) ==> (Parse(s) == Ok(n) <==> LexStop(s, 0) > 0 && Derives(Tokens(s, 0), n))
  {
    hide Lex, Parse, Derives;
    ParserMeetsGrammar(s, n);
    StopIsError(s, 0);
    LexIsForward(s, 0);
  }

  /** The header promises an error for whatever the grammar does not cover.  It does not keep that
      promise after the first token: whatever follows a printed filter is dropped if it does not lex. */
  lemma JunkIsIgnored(n: Node, fmt: RealFormat, junk: string)
    requires Printable(n)
    ensures var t := Show(n, fmt); var s := t + junk;
      Delimited(s, |t|) && Lex(s, |t|).LexFailed? ==> Parse(s) == Ok(n)
  {
    hide Lex, Show, Tree, NotYield, OrYield, OrNode, OrWf, Parse, Printable, Delimited;
    var t := Show(n, fmt);
    var s := t + junk;
    assert s[0..0 + |t|] == t;
    if Delimited(s, |t|) && Lex(s, |t|).LexFailed? {
      assert Tokens(s, |t|) == [];
      hide Tokens;
      LexFilter(n, s, 0, fmt);
      DerivesItself(n);
      FirstLexes(s);
      ParserMeetsGrammar(s, n);
    }
  }

  /** One such text: an `@` behind a blank, and anything after it. */
  lemma AtSignIsJunk(n: Node, fmt: RealFormat, junk: string)
    requires Printable(n)
    ensures Parse(Show(n, fmt) + (" @" + junk)) == Ok(n)
  {
    hide Show, Parse, Printable;
    var t := Show(n, fmt);
    var s := t + (" @" + junk);
    assert s[|t|] == ' ' && s[|t| + 1] == '@';
    assert Span(s, |t|, IsSpace) == Span(s, |t| + 1, IsSpace) == |t| + 1;
    JunkIsIgnored(n, fmt, " @" + junk);
  }

  lemma FirstLexes(s: string)
    requires Tokens(s, 0) != []
    ensures Lex(s, 0).Lexed?
  {}
}

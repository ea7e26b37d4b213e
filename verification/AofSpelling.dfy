/** How each token of a filter is spelled, character by character, and the lexer as the reader of just
    these spellings. */
module AofSpelling {
  import opened Text
  import opened Aof
  import opened AofLexer
  import opened AofParser
  import opened AofGrammar

  // ----- spellings

  /** `w` is the keyword `k`, given in capitals, in any case. */
  predicate Keyword(w: string, k: string) {
    |w| == |k| && forall i | 0 <= i < |w| :: w[i] == k[i] || w[i] as int == k[i] as int + 32
  }

  /** The same between two dots. */
  predicate Dotted(w: string, k: string) {
    |w| >= 2 && w[0] == '.' && w[|w| - 1] == '.' && Keyword(w[1..|w| - 1], k)
  }

  predicate IsName(w: string) { w != "" && (IsAlpha(w[0]) || w[0] == '_') && All(w, IsWord) }

  predicate SpellsWord(t: Token, w: string) {
    && IsName(w)
    && match t
       case TAnd => Keyword(w, "AND")
       case TOr => Keyword(w, "OR")
       case TNot => Keyword(w, "NOT")
       case TBetween => Keyword(w, "BETWEEN")
       case TIn => Keyword(w, "IN")
       case TBool(b) => if b then Keyword(w, "T") || Keyword(w, "TRUE") else Keyword(w, "F") || Keyword(w, "FALSE")
       case TIdent(f) => f == w && !IsKeyword(w)
       case _ => false
  }

  predicate IsKeyword(w: string) {
    || Keyword(w, "AND") || Keyword(w, "OR") || Keyword(w, "NOT") || Keyword(w, "BETWEEN") || Keyword(w, "IN")
    || Keyword(w, "T") || Keyword(w, "TRUE") || Keyword(w, "F") || Keyword(w, "FALSE")
  }

  /** The Clipper keywords. */
  predicate SpellsDotted(t: Token, w: string) {
    match t
    case TAnd => Dotted(w, "AND")
    case TOr => Dotted(w, "OR")
    case TNot => Dotted(w, "NOT")
    case TBool(b) => if b then Dotted(w, "T") || Dotted(w, "Y") else Dotted(w, "F") || Dotted(w, "N")
    case _ => false
  }

  predicate SpellsSymbol(t: Token, w: string) {
    match t
    case TOp(op) =>
      (match op
       case Eq => w == "=" || w == "=="
       case Ne => w == "!=" || w == "<>" || w == "#"
       case Lt => w == "<"
       case Le => w == "<="
       case Gt => w == ">"
       case Ge => w == ">=")
    case TNot => w == "!"
    case TLParen => w == "("
    case TRParen => w == ")"
    case TComma => w == ","
    case _ => false
  }

  /** A text between two quotes of one kind, which it does not hold. */
  predicate SpellsString(t: Token, w: string) {
    t.TString? && |w| >= 2 && (w[0] == '\'' || w[0] == '"') && w[|w| - 1] == w[0]
    && t.text == w[1..|w| - 1] && w[0] !in t.text
  }

  /** Digits, which saturate at the greatest 64-bit integer, or digits around a point. */
  predicate SpellsNumber(t: Token, w: string) {
    var j := Span(w, 0, IsDigit);
    && t.TNumber? && w != ""
    && match t.number
       case IntValue(i) => j == |w| && i == if Numeral(w) > 9223372036854775807 then 9223372036854775807 else Numeral(w)
       case RealValue(r) =>
         && j < |w| && w[j] == '.' && |w| >= 2 && All(w[j + 1..], IsDigit)
         && IsScaled(r, w[..j], w[j + 1..])
       case StrValue(_) => false
  }

  /** The number `whole` `.` `fraction`. */
  predicate IsScaled(r: real, whole: string, fraction: string)
    requires All(whole, IsDigit) && All(fraction, IsDigit)
  {
    All(whole + fraction, IsDigit) && r * Power10(|fraction|) as real == Numeral(whole + fraction) as real
  }

  predicate Spells(t: Token, w: string) {
    SpellsWord(t, w) || SpellsDotted(t, w) || SpellsSymbol(t, w) || SpellsString(t, w) || SpellsNumber(t, w)
  }

  /** Nothing at `e` continues the token `w` that ends there. */
  predicate Clear(w: string, s: string, e: nat)
    requires w != ""
  {
    e < |s| ==>
      var c := s[e];
      && (IsName(w) ==> !IsWord(c))
      && (IsDigit(w[0]) ==> !IsDigit(c) && (c == '.' ==> '.' in w))
      && (w[0] == '.' && w[|w| - 1] != '.' ==> !IsDigit(c))
      && (w == "=" || w == "!" || w == ">" ==> c != '=')
      && (w == "<" ==> c != '=' && c != '>')
  }

  // ----- words

  lemma KeywordIsUpper(w: string, k: string)
    requires forall i | 0 <= i < |k| :: 'A' <= k[i] <= 'Z'
    ensures Keyword(w, k) <==> Upper(w) == k
  {
    if |w| == |k| {
      forall i | 0 <= i < |w|
        ensures Upper(w)[i] == k[i] <==> w[i] == k[i] || w[i] as int == k[i] as int + 32
      {
        UpperAt(w, i);
      }
    }
  }

  lemma KeywordsAreUpper(w: string)
    ensures Keyword(w, "AND") <==> Upper(w) == "AND"
    ensures Keyword(w, "OR") <==> Upper(w) == "OR"
    ensures Keyword(w, "NOT") <==> Upper(w) == "NOT"
    ensures Keyword(w, "BETWEEN") <==> Upper(w) == "BETWEEN"
    ensures Keyword(w, "IN") <==> Upper(w) == "IN"
    ensures Keyword(w, "T") <==> Upper(w) == "T"
    ensures Keyword(w, "TRUE") <==> Upper(w) == "TRUE"
    ensures Keyword(w, "F") <==> Upper(w) == "F"
    ensures Keyword(w, "FALSE") <==> Upper(w) == "FALSE"
    ensures Keyword(w, "Y") <==> Upper(w) == "Y"
    ensures Keyword(w, "N") <==> Upper(w) == "N"
  {
    hide Keyword, Upper;
    KeywordIsUpper(w, "AND");
    KeywordIsUpper(w, "OR");
    KeywordIsUpper(w, "NOT");
    KeywordIsUpper(w, "BETWEEN");
    KeywordIsUpper(w, "IN");
    KeywordIsUpper(w, "T");
    KeywordIsUpper(w, "TRUE");
    KeywordIsUpper(w, "F");
    KeywordIsUpper(w, "FALSE");
    KeywordIsUpper(w, "Y");
    KeywordIsUpper(w, "N");
  }

  /** Bare words, in any case. */
  lemma WordMeans(t: Token, w: string)
    requires IsName(w)
    ensures Word(w) == t <==> SpellsWord(t, w)
  {
    hide Keyword, Upper, IsName;
    KeywordsAreUpper(w);
  }

  lemma WordReads(s: string, b: nat, t: Token, e: nat)
    requires b < |s| && (IsAlpha(s[b]) || s[b] == '_')
    ensures LexAt(s, b) == Lexed(t, e) <==> b < e <= |s| && SpellsWord(t, s[b..e]) && Clear(s[b..e], s, e)
  {
    hide Word, LexNumber, LexString, LexDot, SpellsWord;
    var j := Span(s, b, IsWord);
    var w := s[b..j];
    assert LexAt(s, b) == Lexed(Word(w), j) by { NoSymbol(s, b); }
    assert IsName(w);
    WordMeans(t, w);
    if b < e <= |s| && SpellsWord(t, s[b..e]) && Clear(s[b..e], s, e) {
      SpelledIsName(t, s[b..e]);
      assert forall k | b <= k < e :: IsWord(s[b..e][k - b]) && s[b..e][k - b] == s[k];
      SpanIs(s, b, e, IsWord);
    }
  }

  lemma SpelledIsName(t: Token, w: string)
    requires SpellsWord(t, w)
    ensures IsName(w)
  {}

  lemma NoSymbol(s: string, b: nat)
    requires b < |s| && IsWord(s[b])
    ensures LexSymbol(s, b).token == TEnd
  {}

  // ----- symbols and strings

  lemma SymbolReads(s: string, b: nat, t: Token, e: nat)
    requires b < |s| && LexSymbol(s, b).token != TEnd
    ensures LexAt(s, b) == Lexed(t, e) <==> b < e <= |s| && SpellsSymbol(t, s[b..e]) && Clear(s[b..e], s, e)
  {
    hide LexNumber, LexString, LexDot, LexWord, IsName;
    NotName(s, b);
    assert LexAt(s, b) == LexSymbol(s, b);
    if b < e <= |s| {
      SymbolSlice(s, b, e);
    }
  }

  lemma NotName(s: string, b: nat)
    requires b < |s| && LexSymbol(s, b).token != TEnd
    ensures forall e | b < e <= |s| :: !IsName(s[b..e])
    ensures s[b] in {'=', '!', '<', '>', '#', '(', ')', ','}
  {}

  lemma SymbolSlice(s: string, b: nat, e: nat)
    requires b < e <= |s|
    ensures e == b + 1 ==> s[b..e] == [s[b]]
    ensures e == b + 2 ==> s[b..e] == [s[b], s[b + 1]]
  {}

  lemma StringReads(s: string, b: nat, t: Token, e: nat)
    requires b < |s| && (s[b] == '\'' || s[b] == '"')
    ensures LexAt(s, b) == Lexed(t, e) <==> b < e <= |s| && SpellsString(t, s[b..e]) && Clear(s[b..e], s, e)
  {
    hide LexNumber, LexDot, LexWord, LexSymbol, SpellsString;
    var j := Span(s, b + 1, OtherThan(s[b]));
    if j < |s| {
      QuotedSpells(s, b, j);
    }
    if b < e <= |s| && SpellsString(t, s[b..e]) {
      SpelledEnds(s, b, t, e);
    }
  }

  lemma QuotedSpells(s: string, b: nat, j: nat)
    requires b < j < |s| && (s[b] == '\'' || s[b] == '"') && j == Span(s, b + 1, OtherThan(s[b]))
    ensures SpellsString(TString(s[b + 1..j]), s[b..j + 1]) && Clear(s[b..j + 1], s, j + 1)
  {
    hide IsName, Span;
    QuoteIsNoName(s[b..j + 1]);
    Inner(s, b, j + 1);
    assert forall k | b + 1 <= k < j :: s[b + 1..j][k - (b + 1)] == s[k];
  }

  lemma Inner(s: string, b: nat, e: nat)
    requires b + 2 <= e <= |s|
    ensures |s[b..e]| == e - b && s[b..e][0] == s[b] && s[b..e][e - b - 1] == s[e - 1]
    ensures s[b..e][1..e - b - 1] == s[b + 1..e - 1]
  {
    var w := s[b..e];
    var x, y := w[1..e - b - 1], s[b + 1..e - 1];
    forall k | 0 <= k < |x|
      ensures x[k] == y[k]
    {
      assert w[k + 1] == s[b + 1 + k];
    }
  }

  lemma SpelledEnds(s: string, b: nat, t: Token, e: nat)
    requires b < e <= |s| && SpellsString(t, s[b..e])
    ensures e >= b + 2 && Span(s, b + 1, OtherThan(s[b])) == e - 1 && t == TString(s[b + 1..e - 1])
  {
    Inner(s, b, e);
    assert forall k | b + 1 <= k < e - 1 :: s[k] == t.text[k - (b + 1)];
    SpanIs(s, b + 1, e - 1, OtherThan(s[b]));
  }

  lemma QuoteIsNoName(w: string)
    requires w != "" && (w[0] == '\'' || w[0] == '"')
    ensures !IsName(w)
  {}

  // ----- numbers

  lemma RealLiteralIsScaled(r: real, whole: string, fraction: string)
    requires All(whole, IsDigit) && All(fraction, IsDigit)
    ensures IsScaled(r, whole, fraction) <==> r == RealLiteral(whole, fraction)
  {
    hide Numeral;
    NumeralSplit(whole, fraction);
    ScaledSum(r, Numeral(whole), Numeral(fraction), Power10(|fraction|));
  }

  lemma ScaledSum(r: real, w: nat, f: nat, p: nat)
    requires p > 0
    ensures r * p as real == (w * p + f) as real <==> r == w as real + f as real / p as real
  {
    var x, y, d := w as real, f as real, p as real;
    assert (w * p) as real == x * d;
    assert (x + y / d) * d == x * d + y;
    if r * d == x * d + y {
      assert (r - x) * d == y;
      assert r - x == y / d;
    }
  }

  lemma SpanSlice(s: string, b: nat, e: nat, p: char -> bool)
    requires b <= e <= |s|
    ensures Span(s[b..e], 0, p) == if Span(s, b, p) < e then Span(s, b, p) - b else e - b
  {
    var j := if Span(s, b, p) < e then Span(s, b, p) - b else e - b;
    assert forall k | 0 <= k < j :: s[b..e][k] == s[b + k];
    SpanIs(s[b..e], 0, j, p);
  }

  /** A number, where it stands: the point at `j`, if there is one, and the end at `k`. */
  lemma NumberReads(s: string, b: nat, t: Token, e: nat)
    requires b < |s| && (IsDigit(s[b]) || s[b] == '.')
    requires b + 1 < |s| || IsDigit(s[b])
    requires s[b] == '.' ==> IsDigit(s[b + 1])
    ensures LexNumber(s, b) == Lexed(t, e) <==> b < e <= |s| && SpellsNumber(t, s[b..e]) && Clear(s[b..e], s, e)
  {
    hide RealLiteral, Numeral, IsScaled;
    var j := Span(s, b, IsDigit);
    if j < |s| && s[j] == '.' {
      RealReads(s, b, j, t, e);
    } else {
      IntegerReads(s, b, j, t, e);
    }
  }

  lemma IntegerReads(s: string, b: nat, j: nat, t: Token, e: nat)
    requires b < |s| && IsDigit(s[b]) && j == Span(s, b, IsDigit) && !(j < |s| && s[j] == '.')
    ensures LexNumber(s, b) == Lexed(t, e) <==> b < e <= |s| && SpellsNumber(t, s[b..e]) && Clear(s[b..e], s, e)
  {
    hide RealLiteral, IntLiteral, SpellsNumber, Clear;
    IntegerSpells(s, b, j);
    if b < e <= |s| && SpellsNumber(t, s[b..e]) && Clear(s[b..e], s, e) {
      SpelledInteger(s, b, j, t, e);
    }
  }

  lemma IntegerSpells(s: string, b: nat, j: nat)
    requires b < |s| && IsDigit(s[b]) && j == Span(s, b, IsDigit) && !(j < |s| && s[j] == '.')
    ensures SpellsNumber(TNumber(IntValue(IntLiteral(s[b..j]))), s[b..j]) && Clear(s[b..j], s, j)
  {
    hide Numeral;
    SpanSlice(s, b, j, IsDigit);
    assert s[b..j][0] == s[b] && !IsName(s[b..j]);
  }

  lemma SpelledInteger(s: string, b: nat, j: nat, t: Token, e: nat)
    requires b < e <= |s| && IsDigit(s[b]) && j == Span(s, b, IsDigit) && !(j < |s| && s[j] == '.')
    requires SpellsNumber(t, s[b..e]) && Clear(s[b..e], s, e)
    ensures e == j && t == TNumber(IntValue(IntLiteral(s[b..j])))
  {
    hide Numeral, IsScaled;
    SpanSlice(s, b, e, IsDigit);
    assert s[b..e][0] == s[b];
  }

  lemma RealReads(s: string, b: nat, j: nat, t: Token, e: nat)
    requires b < |s| && j == Span(s, b, IsDigit) < |s| && s[j] == '.' && (IsDigit(s[b]) || (b + 1 < |s| && IsDigit(s[b + 1])))
    ensures LexNumber(s, b) == Lexed(t, e) <==> b < e <= |s| && SpellsNumber(t, s[b..e]) && Clear(s[b..e], s, e)
  {
    hide RealLiteral, SpellsNumber, Clear;
    var k := Span(s, j + 1, IsDigit);
    RealSpells(s, b, j, k);
    if b < e <= |s| && SpellsNumber(t, s[b..e]) && Clear(s[b..e], s, e) {
      SpelledReal(s, b, j, t, e);
    }
  }

  lemma RealSpells(s: string, b: nat, j: nat, k: nat)
    requires b < |s| && j == Span(s, b, IsDigit) < |s| && s[j] == '.' && (IsDigit(s[b]) || (b + 1 < |s| && IsDigit(s[b + 1])))
    requires k == Span(s, j + 1, IsDigit)
    ensures SpellsNumber(TNumber(RealValue(RealLiteral(s[b..j], s[j + 1..k]))), s[b..k]) && Clear(s[b..k], s, k)
  {
    hide RealLiteral, IsScaled;
    PointSlice(s, b, j, k);
    RealLiteralIsScaled(RealLiteral(s[b..j], s[j + 1..k]), s[b..j], s[j + 1..k]);
  }

  lemma SpelledReal(s: string, b: nat, j: nat, t: Token, e: nat)
    requires b < e <= |s| && j == Span(s, b, IsDigit) < |s| && s[j] == '.'
    requires (IsDigit(s[b]) || (b + 1 < |s| && IsDigit(s[b + 1])))
    requires SpellsNumber(t, s[b..e]) && Clear(s[b..e], s, e)
    ensures e == Span(s, j + 1, IsDigit) && t == TNumber(RealValue(RealLiteral(s[b..j], s[j + 1..e])))
  {
    hide RealLiteral, IsScaled, Numeral;
    SpanSlice(s, b, e, IsDigit);
    PointIsRead(s, b, j, t, e);
    PointSlice(s, b, j, e);
    RealLiteralIsScaled(t.number.r, s[b..j], s[j + 1..e]);
  }

  /** The digits do not stop before the point. */
  lemma PointIsRead(s: string, b: nat, j: nat, t: Token, e: nat)
    requires b < e <= |s| && j == Span(s, b, IsDigit) < |s| && s[j] == '.'
    requires SpellsNumber(t, s[b..e]) && Clear(s[b..e], s, e)
    ensures j < e
  {
    hide IsScaled, Numeral;
    SpanSlice(s, b, e, IsDigit);
  }

  lemma PointSlice(s: string, b: nat, j: nat, e: nat)
    requires b <= j < e <= |s| && s[j] == '.' && j == Span(s, b, IsDigit)
    ensures var w := s[b..e];
      && |w| == e - b && w[0] == s[b] && w[j - b] == '.' && w[..j - b] == s[b..j] && w[j - b + 1..] == s[j + 1..e]
      && (All(s[j + 1..e], IsDigit) <==> e <= Span(s, j + 1, IsDigit))
      && Span(w, 0, IsDigit) == j - b && '.' in w && w[|w| - 1] == s[e - 1]
  {
    SpanSlice(s, b, e, IsDigit);
    var k := Span(s, j + 1, IsDigit);
    assert forall i | j + 1 <= i < e :: s[j + 1..e][i - j - 1] == s[i];
    if k < e { assert s[j + 1..e][k - j - 1] == s[k]; }
    assert s[b..e][j - b] == '.';
  }

  // ----- dots

  lemma DotKeywordMeans(t: Token, w: string)
    ensures t != TEnd ==> (DotKeyword(Upper(w)) == t <==> SpellsDotted(t, "." + (w + ".")))
    ensures DotKeyword(Upper(w)) == TEnd <==> forall u :: !SpellsDotted(u, "." + (w + "."))
  {
    hide Keyword, Upper;
    var d := "." + (w + ".");
    assert d[1..|d| - 1] == w;
    KeywordsAreUpper(w);
    if DotKeyword(Upper(w)) != TEnd {
      assert SpellsDotted(DotKeyword(Upper(w)), d);
    }
  }

  lemma DottedEnds(s: string, b: nat, t: Token, e: nat)
    requires b < e <= |s| && SpellsDotted(t, s[b..e])
    ensures e >= b + 2 && s[b] == '.' && s[e - 1] == '.' && Span(s, b + 1, OtherThan('.')) == e - 1
    ensures s[b..e] == "." + (s[b + 1..e - 1] + ".")
  {
    hide SpellsDotted;
    var w := s[b..e];
    DottedLetters(t, w);
    Inner(s, b, e);
    forall k | b + 1 <= k < e - 1
      ensures s[k] != '.'
    {
      assert w[k - b] == s[k];
    }
    SpanIs(s, b + 1, e - 1, OtherThan('.'));
    assert w == [w[0]] + (w[1..|w| - 1] + [w[|w| - 1]]);
  }

  lemma DottedLetters(t: Token, w: string)
    requires SpellsDotted(t, w)
    ensures |w| >= 3 && w[0] == '.' && w[|w| - 1] == '.' && IsAlpha(w[1])
    ensures forall k | 1 <= k < |w| - 1 :: w[k] != '.'
  {
    assert forall k | 1 <= k < |w| - 1 :: w[k] == w[1..|w| - 1][k - 1];
  }

  lemma DotReads(s: string, b: nat, t: Token, e: nat)
    requires b < |s| && s[b] == '.'
    ensures LexAt(s, b) == Lexed(t, e) <==>
      b < e <= |s| && (SpellsDotted(t, s[b..e]) || SpellsNumber(t, s[b..e])) && Clear(s[b..e], s, e)
  {
    hide LexNumber, LexString, LexSymbol, LexWord, SpellsDotted, SpellsNumber, Clear, DotKeyword, Upper;
    var j := Span(s, b + 1, OtherThan('.'));
    if b < e <= |s| {
      PointNeedsDigit(s, b, t, e);
    }
    if j < |s| && DotKeyword(Upper(s[b + 1..j])) != TEnd {
      KeywordReads(s, b, j, t, e);
    } else {
      if b < e <= |s| && SpellsDotted(t, s[b..e]) {
        DottedStands(s, b, t, e);
      }
      if b + 1 < |s| && IsDigit(s[b + 1]) {
        NumberReads(s, b, t, e);
      }
    }
  }

  lemma DottedStands(s: string, b: nat, t: Token, e: nat)
    requires b < e <= |s| && SpellsDotted(t, s[b..e])
    ensures var j := Span(s, b + 1, OtherThan('.')); j == e - 1 && DotKeyword(Upper(s[b + 1..j])) == t != TEnd
  {
    hide DotKeyword, Upper, SpellsDotted;
    DottedEnds(s, b, t, e);
    DotKeywordMeans(t, s[b + 1..e - 1]);
    NoEnd(t, s[b..e]);
  }

  lemma KeywordReads(s: string, b: nat, j: nat, t: Token, e: nat)
    requires b < j < |s| && s[b] == '.' && j == Span(s, b + 1, OtherThan('.'))
    requires DotKeyword(Upper(s[b + 1..j])) != TEnd
    ensures IsAlpha(s[b + 1])
    ensures Lexed(DotKeyword(Upper(s[b + 1..j])), j + 1) == Lexed(t, e) <==>
      b < e <= |s| && SpellsDotted(t, s[b..e]) && Clear(s[b..e], s, e)
  {
    hide DotKeyword, Upper, SpellsDotted, Clear;
    KeywordStands(s, b, j);
    if b < e <= |s| && SpellsDotted(t, s[b..e]) {
      DottedStands(s, b, t, e);
    }
  }

  lemma NoEnd(t: Token, w: string)
    requires SpellsDotted(t, w)
    ensures t != TEnd && forall s, e: nat :: w != "" ==> Clear(w, s, e)
  {
    hide Keyword;
    DottedLetters(t, w);
  }

  lemma KeywordStands(s: string, b: nat, j: nat)
    requires b < j < |s| && s[b] == '.' && s[j] == '.' && DotKeyword(Upper(s[b + 1..j])) != TEnd
    ensures SpellsDotted(DotKeyword(Upper(s[b + 1..j])), s[b..j + 1]) && IsAlpha(s[b + 1])
    ensures Clear(s[b..j + 1], s, j + 1)
  {
    hide DotKeyword, SpellsDotted;
    Inner(s, b, j + 1);
    var w := s[b..j + 1];
    assert w == [w[0]] + (w[1..|w| - 1] + [w[|w| - 1]]);
    DotKeywordMeans(DotKeyword(Upper(s[b + 1..j])), s[b + 1..j]);
    DottedLetters(DotKeyword(Upper(s[b + 1..j])), w);
    NoEnd(DotKeyword(Upper(s[b + 1..j])), w);
    assert w[1] == s[b + 1];
  }

  lemma PointNeedsDigit(s: string, b: nat, t: Token, e: nat)
    requires b < e <= |s| && s[b] == '.'
    ensures SpellsNumber(t, s[b..e]) ==> b + 1 < |s| && IsDigit(s[b + 1])
  {
    hide Numeral, IsScaled;
    var w := s[b..e];
    assert w[0] == '.' && Span(w, 0, IsDigit) == 0;
    if SpellsNumber(t, w) {
      assert w[1..][0] == s[b + 1];
    }
  }

  // ----- the lexer reads the spellings, and nothing else

  /** A spelling shows its class in its first character. */
  lemma FirstCharacter(t: Token, w: string)
    requires Spells(t, w)
    ensures w != "" && t != TEnd
    ensures SpellsWord(t, w) ==> IsAlpha(w[0]) || w[0] == '_'
    ensures SpellsDotted(t, w) ==> w[0] == '.'
    ensures SpellsSymbol(t, w) ==> w[0] in {'=', '!', '<', '>', '#', '(', ')', ','}
    ensures SpellsString(t, w) ==> w[0] == '\'' || w[0] == '"'
    ensures SpellsNumber(t, w) ==> IsDigit(w[0]) || w[0] == '.'
  {
    hide Keyword, IsScaled, Numeral;
    if SpellsDotted(t, w) { DottedLetters(t, w); }
  }

  /** Where a symbol starts. */
  lemma SymbolStarts(s: string, b: nat)
    requires b < |s|
    ensures LexSymbol(s, b).token != TEnd ==> s[b] in {'=', '!', '<', '>', '#', '(', ')', ','}
    ensures s[b] in {'=', '!', '<', '>', '#', '(', ')', ','} ==> LexSymbol(s, b).token != TEnd
  {}

  /** A token at `b` is read up to `e` exactly when that text spells it and nothing continues it. */
  lemma LexAtReads(s: string, b: nat, t: Token, e: nat)
    requires b < |s|
    ensures LexAt(s, b) == Lexed(t, e) <==> b < e <= |s| && Spells(t, s[b..e]) && Clear(s[b..e], s, e)
  {
    hide LexNumber, LexString, LexSymbol, LexDot, LexWord, SpellsWord, SpellsDotted, SpellsSymbol, SpellsString,
      SpellsNumber, Clear;
    SymbolStarts(s, b);
    if b < e <= |s| && Spells(t, s[b..e]) {
      FirstCharacter(t, s[b..e]);
      assert s[b..e][0] == s[b];
    }
    if s[b] == '\'' || s[b] == '"' {
      StringReads(s, b, t, e);
    } else if IsDigit(s[b]) {
      NumberReads(s, b, t, e);
    } else if s[b] == '.' {
      DotReads(s, b, t, e);
    } else if LexSymbol(s, b).token != TEnd {
      SymbolReads(s, b, t, e);
    } else if IsAlpha(s[b]) || s[b] == '_' {
      WordReads(s, b, t, e);
    }
  }

  /** The text from `a` on is a spelling of `ts`, with white space between the tokens. */
  ghost predicate Writes(s: string, a: nat, ts: seq<Token>)
    requires a <= |s|
    decreases |ts|
  {
    var b := Span(s, a, IsSpace);
    if ts == [] then b == |s|
    else exists e: nat :: Ends(s, b, ts[0], e) && Writes(s, e, ts[1..])
  }

  /** The token `t` stands from `b` to `e`. */
  ghost predicate Ends(s: string, b: nat, t: Token, e: nat) {
    b < e <= |s| && Spells(t, s[b..e]) && Clear(s[b..e], s, e)
  }

  /** The lexer reads a text as `ts` exactly when the text spells `ts`. */
  lemma {:induction false} LexerReadsSpellings(s: string, a: nat, ts: seq<Token>)
    requires a <= |s|
    ensures Writes(s, a, ts) <==> Tokens(s, a) == ts && LexesCleanly(s, a)
    decreases |s| - a, |ts|
  {
    hide LexAt, Spells, Clear;
    var b := Span(s, a, IsSpace);
    var r := Lex(s, a);
    if ts != [] {
      forall e: nat | b < |s|
        ensures LexAt(s, b) == Lexed(ts[0], e) <==> Ends(s, b, ts[0], e)
      {
        LexAtReads(s, b, ts[0], e);
      }
    }
    if b < |s| && r.Lexed? {
      LexAtReads(s, b, r.token, r.next);
      FirstCharacter(r.token, s[b..r.next]);
      if ts != [] { LexerReadsSpellings(s, r.next, ts[1..]); }
    }
  }

  // ----- consequences for the parser

  /** Two spellings of the same tokens are the same filter: Clipper or SQL keywords, in any case, either
      quote, `==` or `=`, `<>` or `#` or `!=`, and any white space. */
  lemma SpellingDoesNotMatter(s: string, u: string, ts: seq<Token>)
    requires Writes(s, 0, ts) && Writes(u, 0, ts)
    ensures Parse(s) == Parse(u)
  {
    hide Lex, Writes, OrExpr;
    LexerReadsSpellings(s, 0, ts);
    LexerReadsSpellings(u, 0, ts);
  }

  /** A text that lexes is accepted exactly when it spells tokens that derive a tree. */
  lemma AcceptsSpellings(s: string, n: Node)
    requires LexesCleanly(s, 0)
    ensures Parse(s) == Ok(n) <==> exists ts :: Writes(s, 0, ts) && Derives(ts, n)
  {
    hide Lex, Writes, Derives, Parse;
    LexerReadsSpellings(s, 0, Tokens(s, 0));
    ParserMeetsGrammar(s, n);
    assert Lex(s, 0).Lexed? by { CleanStart(s); }
    forall ts | Writes(s, 0, ts) ensures ts == Tokens(s, 0) { LexerReadsSpellings(s, 0, ts); }
  }

  lemma CleanStart(s: string)
    requires LexesCleanly(s, 0)
    ensures Lex(s, 0).Lexed?
  {}

  /** The truth values are the literals 1 and 0, however they are spelled. */
  lemma TruthIsOneOrZero(s: string, field: string, op: Comparison, truth: bool)
    requires Writes(s, 0, [TIdent(field), TOp(op), TBool(truth)])
    ensures Parse(s) == Ok(Leaf(field, op, [IntValue(if truth then 1 else 0)]))
  {
    hide Lex, Writes;
    var ts := [TIdent(field), TOp(op), TBool(truth)];
    LexerReadsSpellings(s, 0, ts);
    CleanStart(s);
    assert ts[1..][1..] == [TBool(truth)] && ts[1..] == [TOp(op), TBool(truth)];
    assert LeafOf(field, ts[1..]) == Yes(Leaf(field, op, [IntValue(if truth then 1 else 0)]), []);
    var leaf := Leaf(field, op, [IntValue(if truth then 1 else 0)]);
    assert NotExpr(ts) == Yes(leaf, []);
    assert AndExpr(ts) == AndTail([leaf], []) == Yes(leaf, []);
    assert OrExpr(ts) == OrTail([leaf], []) == Yes(leaf, []);
  }
}

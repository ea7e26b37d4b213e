/** The abstract syntax of Advantage Optimized Filters and the lexer of filter strings. */
module Aof {

  datatype Op = Eq | Ne | Lt | Le | Gt | Ge | Between | In

  /** The operators written between a field and one literal. */
  type Comparison = op: Op | op != Between && op != In witness Eq

  /** A literal.  A `double` is modelled by the number it stands for. */
  datatype Value = IntValue(i: int) | RealValue(r: real) | StrValue(s: string)

  datatype Node =
    | Leaf(field: string, op: Op, values: seq<Value>)
    | And(kids: seq<Node>)
    | Or(kids: seq<Node>)
    | Not(child: Node)

  /** The operands an operator reads are there. */
  predicate HasOperands(op: Op, n: nat) { if op == Between then n >= 2 else if op == In then true else n >= 1 }

  /** The literals that the printer and the evaluator read are there. */
  predicate HasLiterals(n: Node) {
    match n
    case Leaf(_, op, values) => HasOperands(op, |values|)
    case And(kids) => forall k | 0 <= k < |kids| :: HasLiterals(kids[k])
    case Or(kids) => forall k | 0 <= k < |kids| :: HasLiterals(kids[k])
    case Not(child) => HasLiterals(child)
  }
}

module AofLexer {
  import opened Text
  import opened Aof

  datatype Token =
    | TIdent(text: string)
    | TNumber(number: Value)
    | TString(text: string)
    | TBool(value: bool)
    | TOp(op: Comparison)
    | TAnd | TOr | TNot | TBetween | TIn
    | TLParen | TRParen | TComma
    | TEnd

  datatype LexError = UnexpectedDot | UnexpectedCharacter(c: char) | UnterminatedString

  /** A token and the position after it. */
  datatype Lexed = Lexed(token: Token, next: nat) | LexFailed(error: LexError, at: nat)

  const INT64_MAX: int := 0x7FFF_FFFF_FFFF_FFFF

  // ----- specification

  /** `strtoll` saturates. */
  function IntLiteral(digits: string): int
    requires All(digits, IsDigit)
  {
    if Numeral(digits) > INT64_MAX then INT64_MAX else Numeral(digits)
  }

  function RealLiteral(whole: string, fraction: string): real
    requires All(whole, IsDigit) && All(fraction, IsDigit)
  {
    Numeral(whole) as real + Numeral(fraction) as real / Power10(|fraction|) as real
  }

  /** A number at `i`: digits, and a fraction if a point follows. */
  function LexNumber(s: string, i: nat): Lexed
    requires i < |s|
  {
    var j := Span(s, i, IsDigit);
    if j < |s| && s[j] == '.' then
      var k := Span(s, j + 1, IsDigit);
      Lexed(TNumber(RealValue(RealLiteral(s[i..j], s[j + 1..k]))), k)
    else
      Lexed(TNumber(IntValue(IntLiteral(s[i..j]))), j)
  }

  /** A string at `i`, which holds the opening quote. */
  function LexString(s: string, i: nat): Lexed
    requires i < |s|
  {
    var j := Span(s, i + 1, OtherThan(s[i]));
    if j < |s| then Lexed(TString(s[i + 1..j]), j + 1) else LexFailed(UnterminatedString, j)
  }

  /** The Clipper keywords between dots. */
  function DotKeyword(body: string): Token {
    if body == "AND" then TAnd
    else if body == "OR" then TOr
    else if body == "NOT" then TNot
    else if body == "T" || body == "Y" then TBool(true)
    else if body == "F" || body == "N" then TBool(false)
    else TEnd
  }

  /** A dot at `i`: a Clipper keyword, or a number without a whole part. */
  function LexDot(s: string, i: nat): Lexed
    requires i < |s|
  {
    var j := Span(s, i + 1, OtherThan('.'));
    if j < |s| && DotKeyword(Upper(s[i + 1..j])) != TEnd then Lexed(DotKeyword(Upper(s[i + 1..j])), j + 1)
    else if i + 1 < |s| && IsDigit(s[i + 1]) then LexNumber(s, i)
    else LexFailed(UnexpectedDot, i)
  }

  function Word(raw: string): (t: Token)
    ensures t != TEnd
  {
    var up := Upper(raw);
    if up == "AND" then TAnd
    else if up == "OR" then TOr
    else if up == "NOT" then TNot
    else if up == "BETWEEN" then TBetween
    else if up == "IN" then TIn
    else if up == "TRUE" || up == "T" then TBool(true)
    else if up == "FALSE" || up == "F" then TBool(false)
    else TIdent(raw)
  }

  function LexWord(s: string, i: nat): Lexed
    requires i < |s|
  {
    var j := Span(s, i, IsWord);
    Lexed(Word(s[i..j]), j)
  }

  predicate Follows(s: string, i: nat, c: char) { i + 1 < |s| && s[i + 1] == c }

  /** An operator, parenthesis or comma at `i`; `TEnd` if there is none. */
  function LexSymbol(s: string, i: nat): (r: Lexed)
    requires i < |s|
    ensures r.Lexed? && (if r.token == TEnd then r.next == i else i < r.next <= |s|)
  {
    var c := s[i];
    if c == '=' then Lexed(TOp(Eq), if Follows(s, i, '=') then i + 2 else i + 1)
    else if c == '!' && Follows(s, i, '=') then Lexed(TOp(Ne), i + 2)
    else if c == '<' && Follows(s, i, '>') then Lexed(TOp(Ne), i + 2)
    else if c == '<' && Follows(s, i, '=') then Lexed(TOp(Le), i + 2)
    else if c == '>' && Follows(s, i, '=') then Lexed(TOp(Ge), i + 2)
    else if c == '<' then Lexed(TOp(Lt), i + 1)
    else if c == '>' then Lexed(TOp(Gt), i + 1)
    else if c == '!' then Lexed(TNot, i + 1)
    else if c == '#' then Lexed(TOp(Ne), i + 1)
    else if c == '(' then Lexed(TLParen, i + 1)
    else if c == ')' then Lexed(TRParen, i + 1)
    else if c == ',' then Lexed(TComma, i + 1)
    else Lexed(TEnd, i)
  }

  /** The token that starts at `i`, which holds no white space. */
  function LexAt(s: string, i: nat): (r: Lexed)
    requires i < |s|
    ensures r.Lexed? ==> i < r.next <= |s|
  {
    var c := s[i];
    if c == '\'' || c == '"' then LexString(s, i)
    else if IsDigit(c) then LexNumber(s, i)
    else if c == '.' then LexDot(s, i)
    else if LexSymbol(s, i).token != TEnd then LexSymbol(s, i)
    else if IsAlpha(c) || c == '_' then LexWord(s, i)
    else LexFailed(UnexpectedCharacter(c), i)
  }

  function Lex(s: string, i: nat): (r: Lexed)
    requires i <= |s|
    ensures r.Lexed? && r.token != TEnd ==> i < r.next <= |s|
    ensures r.Lexed? && r.token == TEnd ==> r.next == |s|
  {
    var j := Span(s, i, IsSpace);
    if j == |s| then Lexed(TEnd, j) else LexAt(s, j)
  }

  /** The tokens from `i` on, up to the end of the text or to the first lexical error. */
  function Tokens(s: string, i: nat): seq<Token>
    requires i <= |s|
    decreases |s| - i
  {
    var r := Lex(s, i);
    if r.Lexed? && r.token != TEnd then [r.token] + Tokens(s, r.next) else []
  }

  /** No lexical error from `i` on. */
  predicate LexesCleanly(s: string, i: nat)
    requires i <= |s|
    decreases |s| - i
  {
    var r := Lex(s, i);
    r.Lexed? && (r.token != TEnd ==> LexesCleanly(s, r.next))
  }

  // ----- the lexer

  class Lexer {
    const src: string
    var pos: nat

    ghost predicate Valid()
      reads this
    {
      pos <= |src|
    }

    constructor (src: string)
      ensures Valid() && this.src == src && pos == 0
    {
      this.src := src;
      pos := 0;
    }

    method SkipSpace()
      requires Valid()
      modifies this`pos
      ensures Valid() && pos == Span(src, old(pos), IsSpace)
    {
      while pos < |src| && IsSpace(src[pos])
        invariant Valid() && Span(src, pos, IsSpace) == Span(src, old(pos), IsSpace)
      {
        pos := pos + 1;
      }
    }

    method ReadString(quote: char) returns (r: Lexed)
      requires Valid() && pos < |src| && src[pos] == quote
      modifies this`pos
      ensures Valid() && r == LexString(src, old(pos)) && pos == (if r.Lexed? then r.next else r.at)
    {
      pos := pos + 1;
      var out := "";
      while pos < |src| && src[pos] != quote
        invariant old(pos) < pos <= |src|
        invariant out == src[old(pos) + 1..pos]
        invariant Span(src, pos, OtherThan(quote)) == Span(src, old(pos) + 1, OtherThan(quote))
      {
        out := out + [src[pos]];
        pos := pos + 1;
      }
      if pos >= |src| {
        return LexFailed(UnterminatedString, pos);
      }
      pos := pos + 1;
      return Lexed(TString(out), pos);
    }

    method ReadNumber() returns (r: Lexed)
      requires Valid() && pos < |src| && (IsDigit(src[pos]) || src[pos] == '.')
      modifies this`pos
      ensures Valid() && r == LexNumber(src, old(pos)) && r.Lexed? && pos == r.next
    {
      hide RealLiteral, IntLiteral, Numeral, Span;
      var start := pos;
      SkipDigits();
      var point := pos;
      if pos < |src| && src[pos] == '.' {
        pos := pos + 1;
        SkipDigits();
        return Lexed(TNumber(RealValue(RealLiteral(src[start..point], src[point + 1..pos]))), pos);
      }
      return Lexed(TNumber(IntValue(IntLiteral(src[start..pos]))), pos);
    }

    method SkipDigits()
      requires Valid()
      modifies this`pos
      ensures Valid() && pos == Span(src, old(pos), IsDigit)
    {
      while pos < |src| && IsDigit(src[pos])
        invariant Valid() && Span(src, pos, IsDigit) == Span(src, old(pos), IsDigit)
      {
        pos := pos + 1;
      }
    }

    /** `TEnd` when no keyword stands here; the position then stays. */
    method TryDotKeyword() returns (t: Token)
      requires Valid() && pos < |src| && src[pos] == '.'
      modifies this`pos
      ensures Valid()
      ensures var j := Span(src, old(pos) + 1, OtherThan('.'));
        t == (if j < |src| then DotKeyword(Upper(src[old(pos) + 1..j])) else TEnd) &&
        pos == (if t == TEnd then old(pos) else j + 1)
    {
      hide DotKeyword;
      var save := pos;
      pos := pos + 1;
      var body := "";
      while pos < |src| && src[pos] != '.'
        invariant save < pos <= |src|
        invariant body == Upper(src[save + 1..pos])
        invariant Span(src, pos, OtherThan('.')) == Span(src, save + 1, OtherThan('.'))
      {
        UpperSnoc(src[save + 1..pos], src[pos]);
        assert src[save + 1..pos + 1] == src[save + 1..pos] + [src[pos]];
        body := body + [ToUpper(src[pos])];
        pos := pos + 1;
      }
      if pos >= |src| {
        pos := save;
        return TEnd;
      }
      pos := pos + 1;
      t := DotKeyword(body);
      if t == TEnd {
        pos := save;
      }
    }

    method ReadIdent() returns (r: Lexed)
      requires Valid() && pos < |src|
      modifies this`pos
      ensures Valid() && r == LexWord(src, old(pos)) && r.Lexed? && pos == r.next
    {
      var start := pos;
      while pos < |src| && IsWord(src[pos])
        invariant Valid() && start <= pos && Span(src, pos, IsWord) == Span(src, start, IsWord)
      {
        pos := pos + 1;
      }
      return Lexed(Word(src[start..pos]), pos);
    }

    /** Multi-character operators and single-character tokens; `TEnd` if `c` starts none. */
    method ReadSymbol(c: char) returns (r: Lexed)
      requires Valid() && pos < |src| && src[pos] == c
      modifies this`pos
      ensures Valid() && r == LexSymbol(src, old(pos)) && r.Lexed? && pos == r.next
    {
      if c == '=' {
        pos := pos + 1;
        if pos < |src| && src[pos] == '=' { pos := pos + 1; }
        r := Lexed(TOp(Eq), pos);
      } else if c == '!' && pos + 1 < |src| && src[pos + 1] == '=' {
        pos := pos + 2;
        r := Lexed(TOp(Ne), pos);
      } else if c == '<' && pos + 1 < |src| && src[pos + 1] == '>' {
        pos := pos + 2;
        r := Lexed(TOp(Ne), pos);
      } else if c == '<' && pos + 1 < |src| && src[pos + 1] == '=' {
        pos := pos + 2;
        r := Lexed(TOp(Le), pos);
      } else if c == '>' && pos + 1 < |src| && src[pos + 1] == '=' {
        pos := pos + 2;
        r := Lexed(TOp(Ge), pos);
      } else if c == '<' {
        pos := pos + 1;
        r := Lexed(TOp(Lt), pos);
      } else if c == '>' {
        pos := pos + 1;
        r := Lexed(TOp(Gt), pos);
      } else if c == '!' {
        pos := pos + 1;
        r := Lexed(TNot, pos);
      } else if c == '#' {
        pos := pos + 1;
        r := Lexed(TOp(Ne), pos);
      } else if c == '(' {
        pos := pos + 1;
        r := Lexed(TLParen, pos);
      } else if c == ')' {
        pos := pos + 1;
        r := Lexed(TRParen, pos);
      } else if c == ',' {
        pos := pos + 1;
        r := Lexed(TComma, pos);
      } else {
        r := Lexed(TEnd, pos);
      }
    }

    /** The next token. */
    method Next() returns (r: Lexed)
      requires Valid()
      modifies this`pos
      ensures Valid() && r == Lex(src, old(pos)) && pos == (if r.Lexed? then r.next else r.at)
    {
      hide LexNumber, LexString, LexWord, LexSymbol, DotKeyword, Word, Upper, OtherThan, Span;
      SkipSpace();
      if pos >= |src| {
        return Lexed(TEnd, pos);
      }
      var c := src[pos];
      if c == '\'' || c == '"' {
        r := ReadString(c);
      } else if IsDigit(c) {
        r := ReadNumber();
      } else if c == '.' {
        var t := TryDotKeyword();
        if t != TEnd {
          r := Lexed(t, pos);
        } else if pos + 1 < |src| && IsDigit(src[pos + 1]) {
          r := ReadNumber();
        } else {
          r := LexFailed(UnexpectedDot, pos);
        }
      } else {
        r := ReadSymbol(c);
        if r.token == TEnd {
          if IsAlpha(c) || c == '_' {
            r := ReadIdent();
          } else {
            r := LexFailed(UnexpectedCharacter(c), pos);
          }
        }
      }
    }
  }

  lemma {:induction false} UpperSnoc(s: string, c: char)
    ensures Upper(s + [c]) == Upper(s) + [ToUpper(c)]
  {
    if s != [] {
      UpperSnoc(s[1..], c);
      assert (s + [c])[1..] == s[1..] + [c];
    } else {
      assert [c][1..] == [];
    }
  }
}

/** The tokens of a text: what a full-text index stores and what a query looks up. */
module FtsTokens {
  import opened Text

  /** `signedChar` says whether the platform's `char` is signed, which makes every byte from 0x80 on a
      delimiter. */
  datatype Options = Options(minLen: nat, maxLen: nat, extraDelims: string, noise: set<string>, signedChar: bool)

  const PUNCTUATION := ".,;:?!\"'()[]{}<>/\\|-_+*=@#$%^&`~"

  predicate IsDefaultDelim(c: char, signedChar: bool) {
    c <= ' ' || (signedChar && c >= 128 as char) || c in PUNCTUATION
  }

  predicate IsDelim(c: char, opts: Options) { IsDefaultDelim(c, opts.signedChar) || c in opts.extraDelims }

  function Lower(s: string): (l: string)
    ensures |l| == |s|
  {
    if s == "" then "" else [ToLower(s[0])] + Lower(s[1..])
  }

  /** A lower-case word that is worth a token. */
  predicate Keeps(word: string, opts: Options) {
    word != "" && opts.minLen <= |word| <= opts.maxLen && word !in opts.noise
  }

  function Flush(cur: string, opts: Options): seq<string> { if Keeps(cur, opts) then [cur] else [] }

  /** The tokens of `s` when the word `cur` has already begun. */
  function TokensFrom(cur: string, s: string, opts: Options): seq<string>
    decreases |s|
  {
    if s == "" then Flush(cur, opts)
    else if IsDelim(s[0], opts) then Flush(cur, opts) + TokensFrom("", s[1..], opts)
    else TokensFrom(cur + [ToLower(s[0])], s[1..], opts)
  }

  function Tokens(s: string, opts: Options): seq<string> { TokensFrom("", s, opts) }

  method Tokenise(s: string, opts: Options) returns (out: seq<string>)
    ensures out == Tokens(s, opts)
  {
    hide Keeps, IsDelim;
    out := [];
    var cur := "";
    for k := 0 to |s|
      invariant out + TokensFrom(cur, s[k..], opts) == Tokens(s, opts)
    {
      assert s[k..][1..] == s[k + 1..];
      if IsDelim(s[k], opts) {
        out := out + Flush(cur, opts);
        cur := "";
      } else {
        cur := cur + [ToLower(s[k])];
      }
    }
    out := out + Flush(cur, opts);
  }

  // ----- what the tokens are

  lemma {:induction false} DistributeFrom(cur: string, a: string, d: char, b: string, opts: Options)
    requires IsDelim(d, opts)
    ensures TokensFrom(cur, a + ([d] + b), opts) == TokensFrom(cur, a, opts) + Tokens(b, opts)
    decreases |a|
  {
    hide Keeps, IsDelim, Flush;
    var s := a + ([d] + b);
    if a == "" {
      assert s == [d] + b;
    } else {
      assert s[1..] == a[1..] + ([d] + b);
      var next := cur + [ToLower(a[0])];
      DistributeFrom(if IsDelim(a[0], opts) then "" else next, a[1..], d, b, opts);
    }
  }

  /** A delimiter separates the tokens before it from those after it. */
  lemma TokensDistribute(a: string, d: char, b: string, opts: Options)
    requires IsDelim(d, opts)
    ensures Tokens(a + ([d] + b), opts) == Tokens(a, opts) + Tokens(b, opts)
  {
    DistributeFrom("", a, d, b, opts);
  }

  /** The part of a text from `start` to `end`. */
  datatype Run = Run(start: nat, end: nat)

  /** A longest part of `s` without delimiters. */
  ghost predicate MaximalRun(s: string, w: Run, opts: Options) {
    && w.start < w.end <= |s| && (forall k | w.start <= k < w.end :: !IsDelim(s[k], opts))
    && (w.start > 0 ==> IsDelim(s[w.start - 1], opts)) && (w.end < |s| ==> IsDelim(s[w.end], opts))
  }

  function RunEnd(s: string, i: nat, opts: Options): (j: nat)
    requires i <= |s|
    ensures i <= j <= |s| && (forall k | i <= k < j :: !IsDelim(s[k], opts)) && (j < |s| ==> IsDelim(s[j], opts))
    decreases |s| - i
  {
    if i == |s| || IsDelim(s[i], opts) then i else RunEnd(s, i + 1, opts)
  }

  /** The words of `s` from `i` on. */
  function Words(s: string, i: nat, opts: Options): (ws: seq<Run>)
    requires i <= |s|
    ensures forall k | 0 <= k < |ws| :: ws[k].start <= ws[k].end <= |s|
    decreases |s| - i
  {
    if i == |s| then []
    else if IsDelim(s[i], opts) then Words(s, i + 1, opts)
    else var j := RunEnd(s, i, opts); [Run(i, j)] + Words(s, j, opts)
  }

  /** `ws` are all the maximal runs from `i` on, from left to right and each once. */
  ghost predicate AreRuns(s: string, i: nat, ws: seq<Run>, opts: Options) {
    && (forall k | 0 <= k < |ws| :: i <= ws[k].start && MaximalRun(s, ws[k], opts))
    && (forall k, l | 0 <= k < l < |ws| :: ws[k].end <= ws[l].start)
    && (forall w | MaximalRun(s, w, opts) && i <= w.start :: w in ws)
  }

  /** The words are the maximal runs. */
  lemma {:induction false} WordsAreRuns(s: string, i: nat, opts: Options)
    requires i <= |s| && (i == 0 || i == |s| || IsDelim(s[i - 1], opts) || IsDelim(s[i], opts))
    ensures AreRuns(s, i, Words(s, i, opts), opts)
    decreases |s| - i
  {
    hide IsDelim, MaximalRun;
    if i == |s| {
      NoRunAtEnd(s, opts);
    } else {
      hide AreRuns;
      var j := if IsDelim(s[i], opts) then i + 1 else RunEnd(s, i, opts);
      WordsAreRuns(s, j, opts);
      MoreRuns(s, i, j, Words(s, j, opts), opts);
    }
  }

  lemma NoRunAtEnd(s: string, opts: Options)
    ensures forall w | MaximalRun(s, w, opts) :: w.start < |s|
  {}

  lemma MoreRuns(s: string, i: nat, j: nat, rest: seq<Run>, opts: Options)
    requires i < |s| && j == (if IsDelim(s[i], opts) then i + 1 else RunEnd(s, i, opts))
    requires i == 0 || IsDelim(s[i - 1], opts) || IsDelim(s[i], opts)
    requires AreRuns(s, j, rest, opts)
    ensures AreRuns(s, i, if IsDelim(s[i], opts) then rest else [Run(i, j)] + rest, opts)
  {
    hide IsDelim, MaximalRun;
    FirstRun(s, i, j, opts);
  }

  /** A run from `i` on is the first one, or starts behind it. */
  lemma FirstRun(s: string, i: nat, j: nat, opts: Options)
    requires i < |s| && j == (if IsDelim(s[i], opts) then i + 1 else RunEnd(s, i, opts))
    requires i == 0 || IsDelim(s[i - 1], opts) || IsDelim(s[i], opts)
    ensures !IsDelim(s[i], opts) ==> MaximalRun(s, Run(i, j), opts)
    ensures forall w | MaximalRun(s, w, opts) && i <= w.start ::
      (!IsDelim(s[i], opts) && w == Run(i, j)) || j <= w.start
  {
    hide IsDelim;
    forall w | MaximalRun(s, w, opts) && i <= w.start
      ensures (!IsDelim(s[i], opts) && w == Run(i, j)) || j <= w.start
    {
      assert !IsDelim(s[w.start], opts);
    }
  }

  /** The tokens that words of `s` make. */
  function Kept(s: string, words: seq<Run>, opts: Options): seq<string>
    requires forall k | 0 <= k < |words| :: words[k].start <= words[k].end <= |s|
  {
    if words == [] then []
    else Flush(Lower(s[words[0].start..words[0].end]), opts) + Kept(s, words[1..], opts)
  }

  lemma {:induction false} TokensAfterRun(cur: string, s: string, i: nat, opts: Options)
    requires i <= |s|
    ensures var j := RunEnd(s, i, opts);
      TokensFrom(cur, s[i..], opts) == Flush(cur + Lower(s[i..j]), opts) + Tokens(s[j..], opts)
    decreases |s| - i
  {
    hide Keeps, IsDelim;
    var j := RunEnd(s, i, opts);
    NoEmptyToken(opts);
    if i == j {
      assert s[i..i] == "" && cur + "" == cur;
    } else {
      assert s[i..][1..] == s[i + 1..];
      TokensAfterRun(cur + [ToLower(s[i])], s, i + 1, opts);
      assert s[i..j][1..] == s[i + 1..j];
      assert cur + [ToLower(s[i])] + Lower(s[i + 1..j]) == cur + Lower(s[i..j]);
    }
  }

  lemma NoEmptyToken(opts: Options)
    ensures Flush("", opts) == []
  {}

  /** The tokens are the words, in lower case and in order, that are worth a token. */
  lemma {:induction false} TokensAreWords(s: string, i: nat, opts: Options)
    requires i <= |s|
    ensures Tokens(s[i..], opts) == Kept(s, Words(s, i, opts), opts)
    decreases |s| - i
  {
    hide Keeps, IsDelim;
    NoEmptyToken(opts);
    if i < |s| {
      if IsDelim(s[i], opts) {
        assert s[i..][1..] == s[i + 1..];
        TokensAreWords(s, i + 1, opts);
      } else {
        var j := RunEnd(s, i, opts);
        TokensAfterRun("", s, i, opts);
        TokensAreWords(s, j, opts);
        assert "" + Lower(s[i..j]) == Lower(s[i..j]);
      }
    }
  }

  // ----- what a token is made of

  /** No byte of a default delimiter: nothing a posting file gives a meaning to. */
  predicate Plain(tok: string) { forall k | 0 <= k < |tok| :: tok[k] > ' ' && tok[k] !in PUNCTUATION }

  lemma {:induction false} TokensArePlain(cur: string, s: string, opts: Options, tok: string)
    requires Plain(cur) && tok in TokensFrom(cur, s, opts)
    ensures tok != "" && Plain(tok) && Keeps(tok, opts)
    decreases |s|
  {
    if s == "" {
    } else if IsDelim(s[0], opts) {
      if tok !in Flush(cur, opts) {
        TokensArePlain("", s[1..], opts, tok);
      }
    } else {
      LowerIsPlain(s[0]);
      TokensArePlain(cur + [ToLower(s[0])], s[1..], opts, tok);
    }
  }

  lemma LowerIsPlain(c: char)
    requires c > ' ' && c !in PUNCTUATION
    ensures ToLower(c) > ' ' && ToLower(c) !in PUNCTUATION
  {
    if 'A' <= c <= 'Z' {
      assert forall k | 0 <= k < |PUNCTUATION| :: !('a' <= PUNCTUATION[k] <= 'z');
    }
  }

  // ----- the tokens of a text, byte by byte

  /** In ASCII the default delimiters are the bytes up to `~` that are no letter and no digit; the signedness
      of `char` decides about all others at once. */
  lemma DefaultDelimiters(c: char, signedChar: bool)
    ensures c as int < 128 ==>
      (IsDefaultDelim(c, signedChar) <==> c as int <= 126 && !('a' <= c <= 'z' || 'A' <= c <= 'Z' || '0' <= c <= '9'))
    ensures c as int >= 128 ==> (IsDefaultDelim(c, signedChar) <==> signedChar)
  {
    if 33 <= c as int < 127 {
      Punctuation(c);
    } else {
      assert forall k | 0 <= k < |PUNCTUATION| :: 33 <= PUNCTUATION[k] as int < 127;
    }
  }

  /** The delimiters: those, and the caller's. */
  lemma Delimiters(c: char, opts: Options)
    ensures IsDelim(c, opts) <==>
      || c in opts.extraDelims
      || (if c as int >= 128 then opts.signedChar
          else c as int <= 126 && !('a' <= c <= 'z' || 'A' <= c <= 'Z' || '0' <= c <= '9'))
  {
    DefaultDelimiters(c, opts.signedChar);
  }

  lemma Punctuation(c: char)
    requires 33 <= c as int < 127
    ensures c in PUNCTUATION <==> !('a' <= c <= 'z' || 'A' <= c <= 'Z' || '0' <= c <= '9')
  {}

  /** `tok` is the part `w` of `s` with its capital ASCII letters, and nothing else, made small. */
  predicate IsSmall(tok: string, s: string, w: Run) {
    && w.start <= w.end <= |s| && |tok| == w.end - w.start
    && forall k | 0 <= k < |tok| ::
         var c := s[w.start + k]; tok[k] as int == if 'A' <= c <= 'Z' then c as int + 32 else c as int
  }

  lemma {:induction false} LowerAt(s: string, k: nat)
    requires k < |s|
    ensures Lower(s)[k] as int == if 'A' <= s[k] <= 'Z' then s[k] as int + 32 else s[k] as int
  {
    if k > 0 {
      LowerAt(s[1..], k - 1);
    }
  }

  lemma LowerIsSmall(tok: string, s: string, w: Run)
    requires w.start <= w.end <= |s|
    ensures IsSmall(tok, s, w) <==> tok == Lower(s[w.start..w.end])
  {
    var x := s[w.start..w.end];
    forall k | 0 <= k < |x|
      ensures Lower(x)[k] as int == if 'A' <= s[w.start + k] <= 'Z' then s[w.start + k] as int + 32 else s[w.start + k] as int
    {
      LowerAt(x, k);
    }
    if IsSmall(tok, s, w) {
      assert forall k | 0 <= k < |x| :: tok[k] == Lower(x)[k];
    }
  }

  /** Each word gives its small letters as a token, unless it is too short, too long, or noise. */
  lemma KeptStep(s: string, words: seq<Run>, tok: string, opts: Options)
    requires words != [] && forall k | 0 <= k < |words| :: words[k].start < words[k].end <= |s|
    requires IsSmall(tok, s, words[0])
    ensures Kept(s, words, opts) ==
      (if |tok| < opts.minLen || |tok| > opts.maxLen || tok in opts.noise then [] else [tok]) + Kept(s, words[1..], opts)
  {
    LowerIsSmall(tok, s, words[0]);
  }

  lemma {:induction false} KeptHas(s: string, words: seq<Run>, tok: string, opts: Options)
    requires forall k | 0 <= k < |words| :: words[k].start < words[k].end <= |s|
    ensures tok in Kept(s, words, opts) <==>
      opts.minLen <= |tok| <= opts.maxLen && tok !in opts.noise && exists k :: 0 <= k < |words| && IsSmall(tok, s, words[k])
  {
    if words != [] {
      var first := Lower(s[words[0].start..words[0].end]);
      hide IsSmall, Keeps;
      LowerIsSmall(first, s, words[0]);
      LowerIsSmall(tok, s, words[0]);
      KeptStep(s, words, first, opts);
      KeptHas(s, words[1..], tok, opts);
      assert forall k | 1 <= k < |words| :: words[k] == words[1..][k - 1];
    }
  }

  /** A text has a token exactly when the token is the small letters of a maximal run, neither too short nor
      too long nor noise. */
  lemma TokenMeans(s: string, tok: string, opts: Options)
    ensures tok in Tokens(s, opts) <==>
      && opts.minLen <= |tok| <= opts.maxLen && tok !in opts.noise
      && exists w :: MaximalRun(s, w, opts) && IsSmall(tok, s, w)
  {
    hide IsSmall, Keeps, IsDelim, Kept;
    var ws := Words(s, 0, opts);
    assert s[0..] == s;
    TokensAreWords(s, 0, opts);
    WordsAreRuns(s, 0, opts);
    NoRunAtEnd(s, opts);
    KeptHas(s, ws, tok, opts);
    if w :| MaximalRun(s, w, opts) && IsSmall(tok, s, w) {
      assert w in ws;
      var k :| 0 <= k < |ws| && ws[k] == w;
    }
  }

  /** No token holds a capital letter. */
  lemma NoCapitals(s: string, tok: string, opts: Options)
    requires tok in Tokens(s, opts)
    ensures forall k | 0 <= k < |tok| :: !('A' <= tok[k] <= 'Z')
  {
    TokenMeans(s, tok, opts);
  }

  // ----- case

  /** The extra delimiters hold both cases of a letter or neither. */
  ghost predicate CaseClosed(opts: Options) {
    forall c, d | SameLetter(c, d) :: c in opts.extraDelims <==> d in opts.extraDelims
  }

  lemma SameDelimiters(c: char, d: char, opts: Options)
    requires SameLetter(c, d) && CaseClosed(opts)
    ensures IsDelim(c, opts) <==> IsDelim(d, opts)
  {
    DefaultDelimiters(c, opts.signedChar);
    DefaultDelimiters(d, opts.signedChar);
  }

  /** Texts that differ in case only have the same tokens. */
  lemma {:induction false} CaseDoesNotMatter(cur: string, a: string, b: string, opts: Options)
    requires SameLetters(a, b) && CaseClosed(opts)
    ensures TokensFrom(cur, a, opts) == TokensFrom(cur, b, opts)
    decreases |a|
  {
    hide Flush, IsDelim, CaseClosed;
    if a != "" {
      SameDelimiters(a[0], b[0], opts);
      FoldsCase(a[0], b[0]);
      CaseDoesNotMatter(if IsDelim(a[0], opts) then "" else cur + [ToLower(a[0])], a[1..], b[1..], opts);
    }
  }

  lemma {:induction false} SameWords(a: string, b: string, i: nat, opts: Options)
    requires SameLetters(a, b) && CaseClosed(opts) && i <= |a|
    ensures RunEnd(a, i, opts) == RunEnd(b, i, opts) && Words(a, i, opts) == Words(b, i, opts)
    decreases |a| - i
  {
    hide IsDelim, CaseClosed;
    if i < |a| {
      SameDelimiters(a[i], b[i], opts);
      SameWords(a, b, i + 1, opts);
      if !IsDelim(a[i], opts) { SameWords(a, b, RunEnd(a, i, opts), opts); }
    }
  }

  /** Case never moves a word exactly when the extra delimiters do not tell the cases of a letter apart. */
  lemma CaseExactly(opts: Options)
    ensures CaseClosed(opts) <==> forall a, b | SameLetters(a, b) :: Words(a, 0, opts) == Words(b, 0, opts)
  {
    if CaseClosed(opts) {
      forall a, b | SameLetters(a, b)
        ensures Words(a, 0, opts) == Words(b, 0, opts)
      {
        SameWords(a, b, 0, opts);
      }
    } else {
      var c, d :| SameLetter(c, d) && c in opts.extraDelims && d !in opts.extraDelims;
      DefaultDelimiters(d, opts.signedChar);
      assert SameLetters([c], [d]);
      assert Words([c], 1, opts) == [] && Words([c], 0, opts) == [];
      assert RunEnd([d], 0, opts) == 1;
      assert Words([d], 0, opts) == [Run(0, 1)] + Words([d], 1, opts);
    }
  }
}

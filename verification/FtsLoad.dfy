/** Reading an index text back. */
module FtsLoad {
  import opened Text
  import opened Dbf
  import opened FtsTokens
  import opened FtsIndex

  type Postings = map<string, seq<nat>>

  /** The first position of `c`; `|s|` if there is none. */
  function Find(s: string, c: char): (j: nat)
    ensures j <= |s| && c !in s[..j] && (j < |s| ==> s[j] == c)
  {
    if s == "" || s[0] == c then 0 else 1 + Find(s[1..], c)
  }

  /** What follows the separator at `j`. */
  function After(s: string, j: nat): string
    requires j <= |s|
  {
    if j == |s| then "" else s[j + 1..]
  }

  /** `strtoul` in base 10, cast to 32 bits: white space, a sign, digits; it saturates, and a minus sign
      negates modulo the width of `unsigned long`. */
  function ParseRecno(s: string, ulongMax: nat): (r: nat)
    ensures r < UINT32
  {
    var r := ScanInteger(s);
    var n := Numeral(r.digits);
    if n > ulongMax then ulongMax % UINT32
    else if r.negative then (ulongMax + 1 - n) % (ulongMax + 1) % UINT32
    else n % UINT32
  }

  function ParseList(list: string, ulongMax: nat): seq<nat>
    decreases |list|
  {
    if list == "" then [] else
      var j := Find(list, ',');
      (if j > 0 then [ParseRecno(list, ulongMax)] else []) + ParseList(After(list, j), ulongMax)
  }

  function Get(m: Postings, tok: string): seq<nat> { if tok in m then m[tok] else [] }

  datatype State = State(postings: Postings, header: bool)

  function StripCr(line: string): string {
    if line != "" && line[|line| - 1] == '\r' then line[..|line| - 1] else line
  }

  function AddLine(raw: string, st: State, ulongMax: nat): State {
    var line := StripCr(raw);
    var tab := Find(line, '\t');
    if line == "" then st
    else if line[0] == '#' then st.(header := true)
    else if tab == |line| then st
    else
      var token := line[..tab];
      st.(postings := st.postings[token := Get(st.postings, token) + ParseList(line[tab + 1..], ulongMax)])
  }

  function AddLines(text: string, st: State, ulongMax: nat): State
    decreases |text|
  {
    if text == "" then st else
      var j := Find(text, '\n');
      AddLines(After(text, j), AddLine(text[..j], st, ulongMax), ulongMax)
  }

  datatype LoadResult = Loaded(postings: Postings) | MissingHeader

  function Loading(text: string, ulongMax: nat): LoadResult {
    var st := AddLines(text, State(map[], false), ulongMax);
    if st.header then Loaded(st.postings) else MissingHeader
  }

  // ----- the loader

  function Rest(s: string, i: nat): string { if i <= |s| then s[i..] else "" }

  method ReadList(list: string, ulongMax: nat, vec: seq<nat>) returns (vec': seq<nat>)
    ensures vec' == vec + ParseList(list, ulongMax)
  {
    hide ParseRecno, Find, Rest, After;
    vec' := vec;
    var i := 0;
    RestStep(list, 0);
    while i < |list|
      invariant Rest(list, i) == "" <== i >= |list|
      invariant vec' + ParseList(Rest(list, i), ulongMax) == vec + ParseList(list, ulongMax)
      decreases |list| - i
    {
      RestStep(list, i);
      var j := i + Find(Rest(list, i), ',');
      if j > i { vec' := vec' + [ParseRecno(Rest(list, i), ulongMax)]; }
      i := j + 1;
      RestEnd(list, i);
    }
  }

  lemma RestStep(s: string, i: nat)
    requires i <= |s|
    ensures Rest(s, i) == s[i..] && (i < |s| ==> Rest(s, i) != "") && Rest(s, 0) == s
    ensures forall j | 0 <= j <= |Rest(s, i)| :: After(Rest(s, i), j) == Rest(s, i + j + 1)
  {}

  lemma RestEnd(s: string, i: nat)
    ensures i >= |s| ==> Rest(s, i) == ""
  {}

  /** `Fts::load`, on the contents of the file. */
  method Load(text: string, ulongMax: nat) returns (r: LoadResult)
    ensures r == Loading(text, ulongMax)
  {
    hide ParseList;
    var out: Postings, sawHeader := map[], false;
    var rest := text;
    while rest != ""
      invariant AddLines(rest, State(out, sawHeader), ulongMax) == AddLines(text, State(map[], false), ulongMax)
      decreases |rest|
    {
      ghost var before := State(out, sawHeader);
      var j := Find(rest, '\n');
      var raw := rest[..j];
      rest := After(rest, j);
      var line := StripCr(raw);
      if line != "" {
        if line[0] == '#' {
          sawHeader := true;
        } else {
          var tab := Find(line, '\t');
          if tab < |line| {
            var vec := ReadList(line[tab + 1..], ulongMax, Get(out, line[..tab]));
            out := out[line[..tab] := vec];
          }
        }
      }
      assert State(out, sawHeader) == AddLine(raw, before, ulongMax);
    }
    r := if sawHeader then Loaded(out) else MissingHeader;
  }

  // ----- a written text read back

  lemma {:induction false} FindIs(a: string, c: char, b: string)
    requires c !in a
    ensures Find(a + ([c] + b), c) == |a| && Find(a, c) == |a|
  {
    if a != "" {
      assert (a + ([c] + b))[1..] == a[1..] + ([c] + b);
      FindIs(a[1..], c, b);
    } else {
      assert a + ([c] + b) == [c] + b;
    }
  }

  lemma ParseDecimal(n: nat, rest: string, ulongMax: nat)
    requires n <= ulongMax && n < UINT32 && (rest == "" || !IsDigit(rest[0]))
    ensures ParseRecno(Decimal(n) + rest, ulongMax) == n
  {
    hide Decimal, Numeral, ParseRecno, ScanInteger;
    NumeralOfDecimal(n);
    RecnoMeans("", "", Decimal(n), rest, ulongMax);
    assert "" + ("" + (Decimal(n) + rest)) == Decimal(n) + rest;
  }

  lemma FirstItem(r: nat, tail: string, ulongMax: nat)
    requires r < UINT32 <= ulongMax + 1 && (tail == "" || tail[0] == ',')
    ensures ParseList(Decimal(r) + tail, ulongMax) == [r] + ParseList(if tail == "" then "" else tail[1..], ulongMax)
  {
    hide ParseRecno, Find, Decimal;
    var d := Decimal(r);
    DecimalHas(r, ',');
    ParseDecimal(r, tail, ulongMax);
    if tail == "" {
      assert d + tail == d;
      NotFound(d, ',');
    } else {
      assert tail == [','] + tail[1..];
      FindIs(d, ',', tail[1..]);
      assert After(d + tail, |d|) == tail[1..];
    }
  }

  /** A list of record numbers survives being written and read. */
  lemma {:induction false} ListBack(rs: seq<nat>, ulongMax: nat)
    requires forall k | 0 <= k < |rs| :: rs[k] < UINT32
    requires ulongMax >= UINT32 - 1
    ensures ParseList(ListText(rs), ulongMax) == rs
  {
    hide ParseList, Decimal;
    if rs == [] {
      assert ParseList("", ulongMax) == [] by { EmptyList("", ulongMax); }
    } else {
      var t := ListTail(rs[1..]);
      FirstItem(rs[0], t, ulongMax);
      ListBack(rs[1..], ulongMax);
      if |rs| > 1 {
        assert t[1..] == ListText(rs[1..]);
      }
    }
  }

  lemma DecimalHas(n: nat, c: char)
    requires !IsDigit(c)
    ensures c !in Decimal(n)
  {}

  lemma {:induction false} ListChars(rs: seq<nat>, c: char)
    requires !IsDigit(c) && c != ','
    ensures c !in ListText(rs) && c !in ListTail(rs)
    ensures rs != [] ==> ListText(rs) != "" && (IsDigit(ListText(rs)[|ListText(rs)| - 1]))
  {
    hide Decimal;
    if rs != [] {
      DecimalHas(rs[0], c);
      ListChars(rs[1..], c);
    }
  }

  lemma {:induction false} FindFirst(a: string, c: char, b: string)
    requires c in a
    ensures Find(a + b, c) == Find(a, c) < |a|
  {
    assert a == [a[0]] + a[1..];
    assert (a + b)[1..] == a[1..] + b;
    if a[0] != c {
      FindFirst(a[1..], c, b);
    }
  }

  lemma NotFound(a: string, c: char)
    requires c !in a
    ensures Find(a, c) == |a|
  {}

  /** The lines of two texts, one after the other. */
  lemma {:induction false} LinesSplit(a: string, b: string, st: State, ulongMax: nat)
    ensures AddLines(a + (['\n'] + b), st, ulongMax) == AddLines(b, AddLines(a, st, ulongMax), ulongMax)
    decreases |a|
  {
    hide Find, AddLine;
    var text := a + (['\n'] + b);
    if '\n' in a {
      FindFirst(a, '\n', ['\n'] + b);
      var j := Find(a, '\n');
      assert text[..j] == a[..j];
      assert After(text, j) == After(a, j) + (['\n'] + b);
      LinesSplit(After(a, j), b, AddLine(a[..j], st, ulongMax), ulongMax);
    } else {
      FindIs(a, '\n', b);
      assert text[..|a|] == a == a[..|a|];
      assert After(text, |a|) == b;
      if a == "" {
        assert AddLine("", st, ulongMax) == st by { EmptyLine(st, ulongMax); }
      } else {
        assert After(a, |a|) == "";
        assert AddLines("", AddLine(a, st, ulongMax), ulongMax) == AddLine(a, st, ulongMax);
      }
    }
  }

  lemma EmptyLine(st: State, ulongMax: nat)
    ensures AddLine("", st, ulongMax) == st
  {}

  lemma {:induction false} HeaderStays(text: string, st: State, ulongMax: nat)
    requires st.header || (text != "" && text[0] == '#')
    ensures AddLines(text, st, ulongMax).header
    decreases |text|
  {
    hide ParseList;
    if text != "" {
      var j := Find(text, '\n');
      HeaderStays(After(text, j), AddLine(text[..j], st, ulongMax), ulongMax);
    }
  }

  /** What a posting file can hold. */
  ghost predicate Writable(ps: seq<Posting>) {
    forall k | 0 <= k < |ps| :: ps[k].token != "" && Plain(ps[k].token) && ps[k].recnos != []
      && forall i | 0 <= i < |ps[k].recnos| :: ps[k].recnos[i] < UINT32
  }

  /** `m` with the record numbers of `ps` after its own. */
  function Merge(m: Postings, ps: seq<Posting>): Postings
    decreases |ps|
  {
    if ps == [] then m else Merge(m[ps[0].token := Get(m, ps[0].token) + ps[0].recnos], ps[1..])
  }

  lemma PlainHasNo(tok: string)
    requires Plain(tok)
    ensures '\t' !in tok && '\n' !in tok && '\r' !in tok && ',' !in tok && '#' !in tok
  {
    assert PUNCTUATION[1] == ',' && '#' in PUNCTUATION;
  }

  lemma LineBack(p: Posting, st: State, ulongMax: nat)
    requires Writable([p]) && ulongMax >= UINT32 - 1
    ensures '\n' !in LineText(p)
    ensures AddLine(LineText(p), st, ulongMax)
      == st.(postings := st.postings[p.token := Get(st.postings, p.token) + p.recnos])
  {
    hide ListText, ParseList, Plain, Find;
    var q := [p][0];
    var list := ListText(p.recnos);
    var line := LineText(p);
    PlainHasNo(p.token);
    ListChars(p.recnos, '\n');
    ListChars(p.recnos, '\r');
    ListBack(p.recnos, ulongMax);
    assert line[|line| - 1] == list[|list| - 1];
    assert StripCr(line) == line;
    FindIs(p.token, '\t', list);
    assert line == p.token + (['\t'] + list);
    assert line[..|p.token|] == p.token && line[|p.token| + 1..] == list;
    assert line[0] == p.token[0];
  }

  lemma {:induction false} LinesBack(ps: seq<Posting>, st: State, ulongMax: nat)
    requires Writable(ps) && ulongMax >= UINT32 - 1
    ensures AddLines(LinesText(ps), st, ulongMax) == State(Merge(st.postings, ps), st.header)
    decreases |ps|
  {
    hide LineText, AddLine, Find, Plain;
    if ps != [] {
      var line, rest := LineText(ps[0]), LinesText(ps[1..]);
      LineBack(ps[0], st, ulongMax);
      assert LinesText(ps) == line + (['\n'] + rest);
      FindIs(line, '\n', rest);
      var text := line + (['\n'] + rest);
      assert text[..|line|] == line && After(text, |line|) == rest;
      LinesBack(ps[1..], AddLine(line, st, ulongMax), ulongMax);
    }
  }

  lemma {:induction false} MergeMeans(m: Postings, ps: seq<Posting>)
    requires WellOrdered(ps)
    ensures forall t :: Get(Merge(m, ps), t) == Get(m, t) + Recnos(ps, t)
    ensures forall t :: t in Merge(m, ps) <==> t in m || Recnos(ps, t) != []
    decreases |ps|
  {
    hide Ascending;
    if ps != [] {
      var next := m[ps[0].token := Get(m, ps[0].token) + ps[0].recnos];
      NotThere(ps[1..], ps[0].token);
      MergeMeans(next, ps[1..]);
      forall t
        ensures Get(Merge(m, ps), t) == Get(m, t) + Recnos(ps, t)
        ensures t in Merge(m, ps) <==> t in m || Recnos(ps, t) != []
      {
        assert Get(Merge(next, ps[1..]), t) == Get(next, t) + Recnos(ps[1..], t);
      }
    }
  }

  /** The postings that `ps` stands for. */
  function AsMap(ps: seq<Posting>): Postings { Merge(map[], ps) }

  /** What the loader takes for postings in the header that the builder writes. */
  function HeaderPostings(tag: string, field: string, opts: Options, ulongMax: nat): Postings {
    AddLines(Header(tag, field, opts), State(map[], false), ulongMax).postings
  }

  function FileText(ps: seq<Posting>, tag: string, field: string, opts: Options): string {
    Header(tag, field, opts) + ("\n" + LinesText(ps))
  }

  /** The loader sees the postings that were written, after those that the header makes it see. */
  lemma LoadingWritten(ps: seq<Posting>, tag: string, field: string, opts: Options, ulongMax: nat)
    requires Writable(ps) && ulongMax >= UINT32 - 1
    ensures Loading(FileText(ps, tag, field, opts), ulongMax)
      == Loaded(Merge(HeaderPostings(tag, field, opts, ulongMax), ps))
  {
    hide Header, LinesText, AddLines, Merge, Writable;
    var h := Header(tag, field, opts);
    LinesSplit(h, LinesText(ps), State(map[], false), ulongMax);
    HeaderStays(h, State(map[], false), ulongMax);
    LinesBack(ps, AddLines(h, State(map[], false), ulongMax), ulongMax);
  }

  /** Every token of `m` has an empty list there, and one of its own in `ps`. */
  ghost predicate AddsNothing(m: Postings, ps: seq<Posting>) {
    forall t | t in m :: m[t] == [] && Recnos(ps, t) != []
  }

  lemma MergeIsOwn(m: Postings, ps: seq<Posting>)
    requires WellOrdered(ps)
    ensures Merge(m, ps) == AsMap(ps) <==> AddsNothing(m, ps)
  {
    hide Merge, WellOrdered;
    var all, own := Merge(m, ps), AsMap(ps);
    MergeMeans(m, ps);
    MergeMeans(map[], ps);
    if all == own {
      forall t | t in m
        ensures m[t] == [] && Recnos(ps, t) != []
      {
        assert Get(all, t) == m[t] + Recnos(ps, t) && Get(own, t) == [] + Recnos(ps, t);
      }
    }
    if AddsNothing(m, ps) {
      forall t
        ensures t in all <==> t in own
        ensures Get(all, t) == Get(own, t)
      {
        assert Get(all, t) == Get(m, t) + Recnos(ps, t) && Get(own, t) == [] + Recnos(ps, t);
      }
      assert forall t | t in all :: all[t] == Get(all, t);
      assert forall t | t in own :: own[t] == Get(own, t);
      assert all == own;
    }
  }

  // ----- lines that pass for postings

  /** The lines of a text, as `getline` cuts it. */
  function LinesOf(text: string): seq<string>
    decreases |text|
  {
    if text == "" then [] else
      var j := Find(text, '\n');
      [text[..j]] + LinesOf(After(text, j))
  }

  /** The loader takes the line for the postings of a token. */
  predicate Forges(raw: string) {
    var line := StripCr(raw);
    line != "" && line[0] != '#' && '\t' in line
  }

  function ForgedToken(raw: string): string { StripCr(raw)[..Find(StripCr(raw), '\t')] }

  function ForgedList(raw: string): string { After(StripCr(raw), Find(StripCr(raw), '\t')) }

  predicate OnlyCommas(list: string) { forall k | 0 <= k < |list| :: list[k] == ',' }

  /** If the line passes for postings, then of a token that `ps` has, and with an empty list. */
  predicate Harmless(raw: string, ps: seq<Posting>) {
    Forges(raw) ==> OnlyCommas(ForgedList(raw)) && Recnos(ps, ForgedToken(raw)) != []
  }

  predicate AllHarmless(lines: seq<string>, ps: seq<Posting>) { forall raw | raw in lines :: Harmless(raw, ps) }

  predicate NoneForges(lines: seq<string>) { forall raw | raw in lines :: !Forges(raw) }

  lemma {:induction false} EmptyList(list: string, ulongMax: nat)
    ensures ParseList(list, ulongMax) == [] <==> OnlyCommas(list)
    decreases |list|
  {
    hide ParseRecno;
    if list != "" {
      var j := Find(list, ',');
      EmptyList(After(list, j), ulongMax);
      if j == 0 {
        assert list == [','] + After(list, 0);
      } else {
        assert list[0] == list[..j][0] != ',';
      }
    }
  }

  lemma LineAdds(raw: string, st: State, ulongMax: nat)
    ensures var m := AddLine(raw, st, ulongMax).postings;
      m == if Forges(raw)
        then st.postings[ForgedToken(raw) := Get(st.postings, ForgedToken(raw)) + ParseList(ForgedList(raw), ulongMax)]
        else st.postings
  {
    hide ParseList;
    var line := StripCr(raw);
    if '\t' !in line {
      NotFound(line, '\t');
    } else {
      FindFirst(line, '\t', "");
      assert line + "" == line;
    }
  }

  lemma {:induction false} LinesAddNothing(text: string, st: State, ps: seq<Posting>, ulongMax: nat)
    ensures AddsNothing(AddLines(text, st, ulongMax).postings, ps) <==>
      AddsNothing(st.postings, ps) && AllHarmless(LinesOf(text), ps)
    decreases |text|
  {
    hide AddLine, AddsNothing, Harmless;
    if text != "" {
      var j := Find(text, '\n');
      var next := AddLine(text[..j], st, ulongMax);
      LinesAddNothing(After(text, j), next, ps, ulongMax);
      LineAddsNothing(text[..j], st, ps, ulongMax);
      assert LinesOf(text) == [text[..j]] + LinesOf(After(text, j));
    }
  }

  lemma LineAddsNothing(raw: string, st: State, ps: seq<Posting>, ulongMax: nat)
    ensures AddsNothing(AddLine(raw, st, ulongMax).postings, ps) <==> AddsNothing(st.postings, ps) && Harmless(raw, ps)
  {
    hide AddLine, ParseList, OnlyCommas, Forges, ForgedToken, ForgedList;
    LineAdds(raw, st, ulongMax);
    EmptyList(ForgedList(raw), ulongMax);
    var m, t := st.postings, ForgedToken(raw);
    if Forges(raw) {
      var m' := AddLine(raw, st, ulongMax).postings;
      assert m'[t] == Get(m, t) + ParseList(ForgedList(raw), ulongMax);
      assert forall u | u in m && u != t :: u in m' && m'[u] == m[u];
    }
  }

  lemma {:induction false} LinesForgeNothing(text: string, st: State, ulongMax: nat)
    ensures AddLines(text, st, ulongMax).postings == map[] <==> st.postings == map[] && NoneForges(LinesOf(text))
    decreases |text|
  {
    hide AddLine, Forges, ParseList;
    if text != "" {
      var j := Find(text, '\n');
      LinesForgeNothing(After(text, j), AddLine(text[..j], st, ulongMax), ulongMax);
      LineAdds(text[..j], st, ulongMax);
      if Forges(text[..j]) {
        assert ForgedToken(text[..j]) in AddLine(text[..j], st, ulongMax).postings;
      }
      assert LinesOf(text) == [text[..j]] + LinesOf(After(text, j));
    }
  }

  /** The header adds no posting exactly when none of its lines passes for one. */
  lemma HeaderAddsNothing(tag: string, field: string, opts: Options, ulongMax: nat)
    ensures HeaderPostings(tag, field, opts, ulongMax) == map[] <==> NoneForges(LinesOf(Header(tag, field, opts)))
  {
    LinesForgeNothing(Header(tag, field, opts), State(map[], false), ulongMax);
  }

  /** The file gives back exactly the postings that were built if and only if each line of the header that
      passes for postings has a token of the index and an empty list. */
  lemma FileRoundTrip(ps: seq<Posting>, tag: string, field: string, opts: Options, ulongMax: nat)
    requires WellOrdered(ps) && Writable(ps) && ulongMax >= UINT32 - 1
    ensures Loading(FileText(ps, tag, field, opts), ulongMax) == Loaded(AsMap(ps)) <==>
      AllHarmless(LinesOf(Header(tag, field, opts)), ps)
  {
    hide FileText, Header, Merge, WellOrdered, Writable, Loading, AddLines, LinesOf;
    LoadingWritten(ps, tag, field, opts, ulongMax);
    MergeIsOwn(HeaderPostings(tag, field, opts, ulongMax), ps);
    LinesAddNothing(Header(tag, field, opts), State(map[], false), ps, ulongMax);
  }

  /** Names without a line break make a harmless header. */
  lemma PlainNames(tag: string, field: string, opts: Options, ulongMax: nat)
    requires '\n' !in tag && '\n' !in field
    ensures NoneForges(LinesOf(Header(tag, field, opts))) && HeaderPostings(tag, field, opts, ulongMax) == map[]
  {
    HeaderAddsNothing(tag, field, opts, ulongMax);
    hide LinesOf, AfterTag, Decimal, AddLines, ParseList, Find;
    var h := Header(tag, field, opts);
    AfterTagHas(field, opts, '\n');
    OneLine(h, State(map[], false), ulongMax);
    assert StripCr(h) != "" && StripCr(h)[0] == '#';
  }

  lemma OneLine(text: string, st: State, ulongMax: nat)
    requires text != "" && '\n' !in text
    ensures AddLines(text, st, ulongMax) == AddLine(text, st, ulongMax)
  {
    hide AddLine;
    NotFound(text, '\n');
    assert text[..|text|] == text && After(text, |text|) == "";
  }

  lemma AfterTagHas(field: string, opts: Options, c: char)
    requires c !in field && c in {'\n', ','}
    ensures c !in AfterTag(field, opts)
    ensures var a := AfterTag(field, opts); a != "" && a[0] == ' ' && IsDigit(a[|a| - 1])
  {
    hide Decimal;
    DecimalHas(opts.minLen, c);
    DecimalHas(opts.maxLen, c);
  }

  lemma ForgedLine(tok: string, r: nat, tail: string, ulongMax: nat)
    requires tok != "" && Plain(tok) && r < UINT32 <= ulongMax + 1
    requires tail != "" && tail[0] == ' ' && IsDigit(tail[|tail| - 1]) && ',' !in tail
    ensures AddLine(tok + (['\t'] + (Decimal(r) + tail)), State(map[], true), ulongMax) == State(map[tok := [r]], true)
  {
    hide Decimal, ParseRecno, Find, Plain;
    var list := Decimal(r) + tail;
    var line := tok + (['\t'] + list);
    PlainHasNo(tok);
    DecimalHas(r, ',');
    FindIs(tok, '\t', list);
    NotFound(list, ',');
    ParseDecimal(r, tail, ulongMax);
    assert ParseList(list, ulongMax) == [r] + ParseList("", ulongMax);
    assert line[|line| - 1] == tail[|tail| - 1];
    assert StripCr(line) == line && line[0] == tok[0];
    assert line[..|tok|] == tok && line[|tok| + 1..] == list;
    assert tok[0] in tok;
    assert ParseList(list, ulongMax) == [r];
    var none: Postings := map[];
    assert Get(none, tok) == [];
    assert [] + [r] == [r];
    assert none[tok := [r]] == map[tok := [r]];
  }

  /** A line break in the tag can smuggle in a posting for any token. */
  lemma SmuggledPosting(tok: string, r: nat, field: string, opts: Options, ulongMax: nat)
    requires tok != "" && Plain(tok) && r < UINT32 <= ulongMax + 1 && '\n' !in field && ',' !in field
    ensures HeaderPostings("\n" + (tok + ("\t" + Decimal(r))), field, opts, ulongMax) == map[tok := [r]]
  {
    hide AfterTag, Decimal, AddLines, ParseList, Find, Plain;
    var first, tail := "# OpenADS FTS v0 tag=", AfterTag(field, opts);
    var line := tok + (['\t'] + (Decimal(r) + tail));
    var st := State(map[], false);
    PlainHasNo(tok);
    AfterTagHas(field, opts, '\n');
    AfterTagHas(field, opts, ',');
    DecimalHas(r, '\n');
    assert Header("\n" + (tok + ("\t" + Decimal(r))), field, opts) == first + (['\n'] + line);
    LinesSplit(first, line, st, ulongMax);
    OneLine(first, st, ulongMax);
    assert StripCr(first) == first;
    OneLine(line, State(map[], true), ulongMax);
    ForgedLine(tok, r, tail, ulongMax);
  }

  // ----- any text

  /** A text is refused exactly when none of its lines starts with `#`. */
  lemma RefusedExactly(text: string, ulongMax: nat)
    ensures Loading(text, ulongMax) == MissingHeader <==>
      forall raw | raw in LinesOf(text) :: raw == "" || raw[0] != '#'
  {
    HeaderSeen(text, State(map[], false), ulongMax);
  }

  lemma {:induction false} HeaderSeen(text: string, st: State, ulongMax: nat)
    ensures AddLines(text, st, ulongMax).header <==> st.header || exists raw :: raw in LinesOf(text) && raw != "" && raw[0] == '#'
    decreases |text|
  {
    hide ParseList;
    if text != "" {
      var j := Find(text, '\n');
      HeaderSeen(After(text, j), AddLine(text[..j], st, ulongMax), ulongMax);
      assert LinesOf(text) == [text[..j]] + LinesOf(After(text, j));
    }
  }

  /** The lines, each with the ending `eol`. */
  function Ended(lines: seq<string>, eol: string): string {
    if lines == [] then "" else lines[0] + (eol + Ended(lines[1..], eol))
  }

  /** A file with CRLF line ends loads as the file with LF line ends. */
  lemma CrLfLoads(lines: seq<string>, ulongMax: nat)
    requires forall k | 0 <= k < |lines| :: '\n' !in lines[k] && '\r' !in lines[k]
    ensures Loading(Ended(lines, "\r\n"), ulongMax) == Loading(Ended(lines, "\n"), ulongMax)
  {
    CrLfLines(lines, State(map[], false), ulongMax);
  }

  lemma {:induction false} CrLfLines(lines: seq<string>, st: State, ulongMax: nat)
    requires forall k | 0 <= k < |lines| :: '\n' !in lines[k] && '\r' !in lines[k]
    ensures AddLines(Ended(lines, "\r\n"), st, ulongMax) == AddLines(Ended(lines, "\n"), st, ulongMax)
  {
    hide AddLine;
    if lines != [] {
      var l := lines[0];
      var crlf, lf := Ended(lines[1..], "\r\n"), Ended(lines[1..], "\n");
      assert l + ("\r\n" + crlf) == (l + ['\r']) + (['\n'] + crlf);
      FirstLine(l + ['\r'], crlf, st, ulongMax);
      FirstLine(l, lf, st, ulongMax);
      CrIgnored(l, st, ulongMax);
      CrLfLines(lines[1..], AddLine(l, st, ulongMax), ulongMax);
    }
  }

  lemma FirstLine(l: string, rest: string, st: State, ulongMax: nat)
    requires '\n' !in l
    ensures AddLines(l + (['\n'] + rest), st, ulongMax) == AddLines(rest, AddLine(l, st, ulongMax), ulongMax)
  {
    hide AddLine;
    var text := l + (['\n'] + rest);
    FindIs(l, '\n', rest);
    assert text[..|l|] == l && After(text, |l|) == rest;
  }

  lemma CrIgnored(l: string, st: State, ulongMax: nat)
    requires '\r' !in l
    ensures AddLine(l + ['\r'], st, ulongMax) == AddLine(l, st, ulongMax)
  {
    hide ParseList, Find;
    assert StripCr(l + ['\r']) == l == StripCr(l);
  }

  /** Any item of a list: white space, a sign, digits, and then what is no digit. */
  lemma RecnoMeans(blanks: string, sign: string, digits: string, rest: string, ulongMax: nat)
    requires All(blanks, IsSpace) && (sign == "" || sign == "+" || sign == "-") && All(digits, IsDigit)
    requires rest == "" || !IsDigit(rest[0])
    requires digits != "" || sign != "" || rest == "" || (!IsSpace(rest[0]) && rest[0] != '+' && rest[0] != '-')
    ensures var n := Numeral(digits);
      ParseRecno(blanks + (sign + (digits + rest)), ulongMax) ==
        if n > ulongMax then ulongMax % 0x1_0000_0000
        else if sign == "-" && n > 0 then (ulongMax + 1 - n) % 0x1_0000_0000
        else n % 0x1_0000_0000
  {
    hide Numeral, ScanInteger;
    ScanMeans(blanks, sign, digits, rest);
    Negated(Numeral(digits), ulongMax);
  }

  lemma Negated(n: nat, ulongMax: nat)
    ensures n <= ulongMax ==> (ulongMax + 1 - n) % (ulongMax + 1) == if n > 0 then ulongMax + 1 - n else 0
  {}
}

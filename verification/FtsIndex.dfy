/** Building the inverted index of a text column, and writing it out. */
module FtsIndex {
  import opened Text
  import opened KeyOrder
  import opened Dbf
  import opened FtsTokens

  // ----- postings

  datatype Posting = Posting(token: string, recnos: seq<nat>)

  predicate Ascending(rs: seq<nat>) { forall i, j | 0 <= i < j < |rs| :: rs[i] < rs[j] }

  predicate ByToken(ps: seq<Posting>) { forall i, j | 0 <= i < j < |ps| :: Below(ps[i].token, ps[j].token) }

  /** Tokens in byte order, each with its record numbers in ascending order. */
  predicate WellOrdered(ps: seq<Posting>) {
    ByToken(ps) && forall i | 0 <= i < |ps| :: ps[i].recnos != [] && Ascending(ps[i].recnos)
  }

  /** The record numbers of a token; none for a token that is not there. */
  function Recnos(ps: seq<Posting>, tok: string): seq<nat> {
    if ps == [] then [] else if ps[0].token == tok then ps[0].recnos else Recnos(ps[1..], tok)
  }

  function InsertRecno(rs: seq<nat>, r: nat): seq<nat> {
    if rs == [] || r < rs[0] then [r] + rs
    else if r == rs[0] then rs
    else [rs[0]] + InsertRecno(rs[1..], r)
  }

  function Insert(ps: seq<Posting>, tok: string, r: nat): seq<Posting> {
    if ps == [] || Below(tok, ps[0].token) then [Posting(tok, [r])] + ps
    else if tok == ps[0].token then [Posting(tok, InsertRecno(ps[0].recnos, r))] + ps[1..]
    else [ps[0]] + Insert(ps[1..], tok, r)
  }

  lemma {:induction false} InsertRecnoMeans(rs: seq<nat>, r: nat)
    requires Ascending(rs)
    ensures Ascending(InsertRecno(rs, r)) && InsertRecno(rs, r) != []
    ensures forall q :: q in InsertRecno(rs, r) <==> q == r || q in rs
  {
    if rs != [] && r > rs[0] {
      InsertRecnoMeans(rs[1..], r);
      assert rs == [rs[0]] + rs[1..];
      var rest := InsertRecno(rs[1..], r);
      forall k | 0 <= k < |rest|
        ensures rs[0] < rest[k]
      {
        assert rest[k] in rest;
      }
    }
  }

  lemma {:induction false} InsertMeans(ps: seq<Posting>, tok: string, r: nat)
    requires WellOrdered(ps)
    ensures WellOrdered(Insert(ps, tok, r))
    ensures forall t :: Recnos(Insert(ps, tok, r), t) == if t == tok then InsertRecno(Recnos(ps, tok), r) else Recnos(ps, t)
    ensures forall t | Below(t, tok) && (ps == [] || Below(t, ps[0].token)) ::
      forall k | 0 <= k < |Insert(ps, tok, r)| :: Below(t, Insert(ps, tok, r)[k].token)
  {
    hide Below, InsertRecno, Ascending;
    var out := Insert(ps, tok, r);
    InsertRecnoMeans([], r);
    assert InsertRecno([], r) == [r] by { OneRecno(r); }
    if ps == [] {
    } else if Below(tok, ps[0].token) {
      AllAbove(ps, tok);
      NotThere(ps, tok);
    } else if tok == ps[0].token {
      InsertRecnoMeans(ps[0].recnos, r);
    } else {
      Trichotomy(tok, ps[0].token);
      InsertMeans(ps[1..], tok, r);
    }
    forall t, k | Below(t, tok) && (ps == [] || Below(t, ps[0].token)) && 0 <= k < |out|
      ensures Below(t, out[k].token)
    {
      if ps != [] { AllAbove(ps, t); }
    }
  }

  lemma OneRecno(r: nat)
    ensures InsertRecno([], r) == [r]
  {}

  lemma AllAbove(ps: seq<Posting>, t: string)
    requires ByToken(ps) && ps != [] && Below(t, ps[0].token)
    ensures forall k | 0 <= k < |ps| :: Below(t, ps[k].token)
  {
    forall k | 0 < k < |ps|
      ensures Below(t, ps[k].token)
    {
      Transitive(t, ps[0].token, ps[k].token);
    }
  }

  lemma {:induction false} NotThere(ps: seq<Posting>, t: string)
    requires forall k | 0 <= k < |ps| :: Below(t, ps[k].token)
    ensures Recnos(ps, t) == []
  {
    if ps != [] {
      Irreflexive(t);
      NotThere(ps[1..], t);
    }
  }

  // ----- the index of a table

  datatype Row = Row(deleted: bool, texts: seq<string>)

  /** A table as the builder reads it. */
  datatype Source = Source(fields: seq<Field>, rows: seq<Row>) {
    /** `record_count` is a 32-bit number, and the builder's counter passes it by one. */
    predicate Valid() {
      |rows| < UINT32 - 1 && forall r | 0 <= r < |rows| :: |rows[r].texts| == |fields|
    }
  }

  /** Record `r` is live and its field `f` has the token. */
  predicate Mentions(src: Source, f: nat, opts: Options, tok: string, r: nat)
    requires src.Valid() && f < |src.fields|
  {
    1 <= r <= |src.rows| && !src.rows[r - 1].deleted && tok in Tokens(src.rows[r - 1].texts[f], opts)
  }

  /** `ps` is the inverted index of the records up to `n`. */
  ghost predicate IsIndexUpTo(ps: seq<Posting>, src: Source, f: nat, opts: Options, n: nat)
    requires src.Valid() && f < |src.fields|
  {
    WellOrdered(ps) && forall tok, r: nat :: r in Recnos(ps, tok) <==> r <= n && Mentions(src, f, opts, tok, r)
  }

  ghost predicate IsIndex(ps: seq<Posting>, src: Source, f: nat, opts: Options)
    requires src.Valid() && f < |src.fields|
  {
    IsIndexUpTo(ps, src, f, opts, |src.rows|)
  }

  /** Adds the tokens `toks` of record `r`. */
  method AddTokens(ps: seq<Posting>, toks: seq<string>, r: nat) returns (ps': seq<Posting>)
    requires WellOrdered(ps)
    ensures WellOrdered(ps')
    ensures forall tok, q :: q in Recnos(ps', tok) <==> q in Recnos(ps, tok) || (q == r && tok in toks)
  {
    hide WellOrdered, Recnos, Insert, InsertRecno;
    ps' := ps;
    for k := 0 to |toks|
      invariant WellOrdered(ps')
      invariant forall tok, q :: q in Recnos(ps', tok) <==> q in Recnos(ps, tok) || (q == r && tok in toks[..k])
    {
      InsertedToken(ps', toks[k], r);
      ps' := Insert(ps', toks[k], r);
      assert toks[..k + 1] == toks[..k] + [toks[k]];
    }
  }

  lemma InsertedToken(ps: seq<Posting>, tok: string, r: nat)
    requires WellOrdered(ps)
    ensures WellOrdered(Insert(ps, tok, r))
    ensures forall t, q :: q in Recnos(Insert(ps, tok, r), t) <==> q in Recnos(ps, t) || (q == r && t == tok)
  {
    InsertMeans(ps, tok, r);
    RecnosAscend(ps, tok);
    InsertRecnoMeans(Recnos(ps, tok), r);
  }

  lemma {:induction false} RecnosAscend(ps: seq<Posting>, tok: string)
    requires WellOrdered(ps)
    ensures Ascending(Recnos(ps, tok))
  {
    if ps != [] {
      RecnosAscend(ps[1..], tok);
    }
  }

  method Build(src: Source, f: nat, opts: Options) returns (ps: seq<Posting>)
    requires src.Valid() && f < |src.fields|
    ensures IsIndex(ps, src, f, opts)
  {
    hide WellOrdered, Recnos, Tokens;
    ps := [];
    NothingYet();
    var r := 1;
    while r <= |src.rows|
      invariant 1 <= r <= |src.rows| + 1
      invariant IsIndexUpTo(ps, src, f, opts, r - 1)
    {
      if !src.rows[r - 1].deleted {
        var toks := Tokenise(src.rows[r - 1].texts[f], opts);
        ps := AddTokens(ps, toks, r);
      }
      r := r + 1;
    }
  }

  lemma NothingYet()
    ensures WellOrdered([]) && forall tok :: Recnos([], tok) == []
  {}

  // ----- the index as a text

  /** `, r` for each record number. */
  function ListTail(rs: seq<nat>): string {
    if rs == [] then "" else "," + (Decimal(rs[0]) + ListTail(rs[1..]))
  }

  function ListText(rs: seq<nat>): string { if rs == [] then "" else Decimal(rs[0]) + ListTail(rs[1..]) }

  function LineText(p: Posting): string { p.token + ("\t" + ListText(p.recnos)) }

  function LinesText(ps: seq<Posting>): string {
    if ps == [] then "" else LineText(ps[0]) + ("\n" + LinesText(ps[1..]))
  }

  function Header(tag: string, field: string, opts: Options): (h: string)
    ensures h != "" && h[0] == '#'
  {
    "# OpenADS FTS v0 tag=" + (tag + AfterTag(field, opts))
  }

  function AfterTag(field: string, opts: Options): string {
    " field=" + (field + (" min=" + (Decimal(opts.minLen) + (" max=" + Decimal(opts.maxLen)))))
  }

  /** A header, as the documentation of the format shows it. */
  lemma SampleHeader(noise: set<string>, extra: string, signedChar: bool)
    ensures Header("t", "f", Options(3, 30, extra, noise, signedChar)) == "# OpenADS FTS v0 tag=t field=f min=3 max=30"
  {
    assert Decimal(3) == "3" && Decimal(30) == Decimal(3) + "0" == "30";
    hide Decimal;
    assert AfterTag("f", Options(3, 30, extra, noise, signedChar)) == " field=f min=3 max=30";
  }

  method WriteList(rs: seq<nat>) returns (out: string)
    ensures out == ListText(rs)
  {
    hide Decimal, ListText, ListTail;
    ListParts(rs);
    out := "";
    var first := true;
    for k := 0 to |rs|
      invariant first == (k == 0) && (first ==> out == "")
      invariant !first ==> out + ListTail(rs[k..]) == ListText(rs)
    {
      ListParts(rs[k..]);
      if first {
        out := out + Decimal(rs[k]);
      } else {
        ListStep(rs, k, out);
        out := out + ",";
        out := out + Decimal(rs[k]);
      }
      first := false;
    }
    ListParts([]);
    assert rs[|rs|..] == [];
  }

  lemma ListParts(rs: seq<nat>)
    ensures rs == [] ==> ListText(rs) == ListTail(rs) == ""
    ensures rs != [] ==> ListText(rs) == Decimal(rs[0]) + ListTail(rs[1..])
  {}

  lemma ListStep(rs: seq<nat>, k: nat, out: string)
    requires k < |rs|
    ensures out + ListTail(rs[k..]) == out + "," + Decimal(rs[k]) + ListTail(rs[k + 1..])
  {
    hide Decimal;
    var d, t := Decimal(rs[k]), ListTail(rs[k + 1..]);
    assert rs[k..][0] == rs[k] && rs[k..][1..] == rs[k + 1..];
    assert ListTail(rs[k..]) == "," + (d + t);
    assert out + ("," + (d + t)) == out + "," + d + t;
  }

  method WriteLines(ps: seq<Posting>) returns (out: string)
    ensures out == LinesText(ps)
  {
    hide ListText;
    out := "";
    for k := 0 to |ps|
      invariant out + LinesText(ps[k..]) == LinesText(ps)
    {
      var list := WriteList(ps[k].recnos);
      out := out + (ps[k].token + ("\t" + list)) + "\n";
    }
  }

  datatype CreateResult = Created(text: string) | FieldNotFound

  /** `Fts::create`, with the file as a string. */
  method Create(src: Source, tag: string, field: string, opts: Options) returns (r: CreateResult)
    requires src.Valid()
    ensures r.FieldNotFound? <==> FieldIndex(src.fields, field) == |src.fields|
    ensures r.Created? ==> exists ps ::
      && IsIndex(ps, src, FieldIndex(src.fields, field), opts)
      && r.text == Header(tag, field, opts) + ("\n" + LinesText(ps))
  {
    hide LinesText, Header;
    var f := FieldIndex(src.fields, field);
    if f == |src.fields| { return FieldNotFound; }
    var ps := Build(src, f, opts);
    var lines := WriteLines(ps);
    r := Created(Header(tag, field, opts) + ("\n" + lines));
  }

  // ----- an index is determined by its table: two builds write the same text

  lemma {:induction false} AscendingUnique(rs: seq<nat>, qs: seq<nat>)
    requires Ascending(rs) && Ascending(qs) && forall r :: r in rs <==> r in qs
    ensures rs == qs
  {
    assert rs != [] ==> rs[0] in rs;
    assert qs != [] ==> qs[0] in qs;
    if rs != [] {
      SameFirst(rs, qs);
      AscendingUnique(rs[1..], qs[1..]);
      assert rs == [rs[0]] + rs[1..] && qs == [qs[0]] + qs[1..];
    }
  }

  lemma SameFirst(rs: seq<nat>, qs: seq<nat>)
    requires Ascending(rs) && Ascending(qs) && rs != [] && qs != [] && forall r :: r in rs <==> r in qs
    ensures rs[0] == qs[0] && forall r :: r in rs[1..] <==> r in qs[1..]
  {
    assert rs[0] in rs && qs[0] in qs;
    assert rs == [rs[0]] + rs[1..] && qs == [qs[0]] + qs[1..];
    forall r
      ensures r in rs[1..] <==> r in qs[1..]
    {
      assert rs[0] !in rs[1..] && qs[0] !in qs[1..];
      assert r in rs <==> r == rs[0] || r in rs[1..];
      assert r in qs <==> r == qs[0] || r in qs[1..];
    }
  }

  lemma {:induction false} IndexIsUnique(ps: seq<Posting>, qs: seq<Posting>)
    requires WellOrdered(ps) && WellOrdered(qs)
    requires forall tok, r :: r in Recnos(ps, tok) <==> r in Recnos(qs, tok)
    ensures ps == qs
  {
    hide Below, Ascending;
    assert ps != [] ==> ps[0].recnos[0] in Recnos(ps, ps[0].token);
    assert qs != [] ==> qs[0].recnos[0] in Recnos(qs, qs[0].token);
    if ps != [] {
      var tok := ps[0].token;
      NotBefore(ps, qs);
      NotBefore(qs, ps);
      Trichotomy(tok, qs[0].token);
      assert Recnos(ps, tok) == ps[0].recnos && Recnos(qs, tok) == qs[0].recnos;
      AscendingUnique(ps[0].recnos, qs[0].recnos);
      NotThere(ps[1..], tok);
      NotThere(qs[1..], tok);
      forall t, r
        ensures r in Recnos(ps[1..], t) <==> r in Recnos(qs[1..], t)
      {
        assert r in Recnos(ps, t) <==> r in Recnos(qs, t);
      }
      IndexIsUnique(ps[1..], qs[1..]);
      assert ps == [ps[0]] + ps[1..] && qs == [qs[0]] + qs[1..];
    }
  }

  lemma NotBefore(ps: seq<Posting>, qs: seq<Posting>)
    requires WellOrdered(ps) && WellOrdered(qs) && ps != [] && qs != []
    requires forall tok, r :: r in Recnos(ps, tok) <==> r in Recnos(qs, tok)
    ensures !Below(ps[0].token, qs[0].token)
  {
    var tok := ps[0].token;
    assert ps[0].recnos[0] in Recnos(ps, tok);
    if Below(tok, qs[0].token) {
      AllAbove(qs, tok);
      NotThere(qs, tok);
      assert false;
    }
  }
}

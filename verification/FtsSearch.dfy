/** Looking a query up in loaded postings. */
module FtsSearch {
  import opened Text
  import opened Dbf
  import opened FtsTokens
  import opened FtsIndex
  import opened FtsLoad

  /** `std::set_intersection` */
  function Intersection(a: seq<nat>, b: seq<nat>): seq<nat>
    decreases |a| + |b|
  {
    if a == [] || b == [] then []
    else if a[0] < b[0] then Intersection(a[1..], b)
    else if b[0] < a[0] then Intersection(a, b[1..])
    else [a[0]] + Intersection(a[1..], b[1..])
  }

  method SetIntersection(a: seq<nat>, b: seq<nat>) returns (out: seq<nat>)
    ensures out == Intersection(a, b)
  {
    out := [];
    var i, j := 0, 0;
    while i < |a| && j < |b|
      invariant 0 <= i <= |a| && 0 <= j <= |b|
      invariant out + Intersection(a[i..], b[j..]) == Intersection(a, b)
      decreases |a| - i + |b| - j
    {
      assert a[i..][1..] == a[i + 1..] && b[j..][1..] == b[j + 1..];
      if a[i] < b[j] {
        i := i + 1;
      } else {
        if !(b[j] < a[i]) {
          out := out + [a[i]];
          i := i + 1;
        }
        j := j + 1;
      }
    }
  }

  /** The record numbers in `acc` and in the postings of every token. */
  function Narrow(p: Postings, acc: seq<nat>, toks: seq<string>): seq<nat>
    decreases |toks|
  {
    if toks == [] then acc
    else if toks[0] !in p then []
    else Narrow(p, Intersection(acc, p[toks[0]]), toks[1..])
  }

  function Hits(p: Postings, toks: seq<string>): seq<nat> {
    if toks == [] || toks[0] !in p then [] else Narrow(p, p[toks[0]], toks[1..])
  }

  lemma {:induction false} NarrowNothing(p: Postings, toks: seq<string>)
    ensures Narrow(p, [], toks) == []
  {
    if toks != [] {
      NarrowNothing(p, toks[1..]);
    }
  }

  /** `Fts::search` */
  method Search(p: Postings, query: string, opts: Options) returns (result: seq<nat>)
    ensures result == Hits(p, FtsTokens.Tokens(query, opts))
  {
    hide Intersection, FtsTokens.Tokens;
    var toks := Tokenise(query, opts);
    if toks == [] { return []; }
    result := [];
    var first := true;
    for k := 0 to |toks|
      invariant first == (k == 0)
      invariant !first ==> Narrow(p, result, toks[k..]) == Hits(p, toks)
    {
      assert toks[k..][0] == toks[k] && toks[k..][1..] == toks[k + 1..];
      if toks[k] !in p { return []; }
      if first {
        result, first := p[toks[k]], false;
      } else {
        result := SetIntersection(result, p[toks[k]]);
        if result == [] {
          NarrowNothing(p, toks[k + 1..]);
          return;
        }
      }
    }
  }

  // ----- what a search finds

  lemma {:induction false} IntersectionMeans(a: seq<nat>, b: seq<nat>)
    requires Ascending(a) && Ascending(b)
    ensures Ascending(Intersection(a, b))
    ensures forall r :: r in Intersection(a, b) <==> r in a && r in b
    decreases |a| + |b|
  {
    if a != [] && b != [] {
      assert a == [a[0]] + a[1..] && b == [b[0]] + b[1..];
      if a[0] < b[0] {
        assert a[0] !in b;
        IntersectionMeans(a[1..], b);
      } else if b[0] < a[0] {
        assert b[0] !in a;
        IntersectionMeans(a, b[1..]);
      } else {
        IntersectionMeans(a[1..], b[1..]);
        var rest := Intersection(a[1..], b[1..]);
        forall k | 0 <= k < |rest|
          ensures a[0] < rest[k]
        {
          assert rest[k] in rest;
        }
      }
    }
  }

  /** Every token lists `r`. */
  predicate InAll(p: Postings, toks: seq<string>, r: nat) { forall k | 0 <= k < |toks| :: r in Get(p, toks[k]) }

  lemma InAllFirst(p: Postings, toks: seq<string>)
    requires toks != []
    ensures forall r :: InAll(p, toks, r) <==> r in Get(p, toks[0]) && InAll(p, toks[1..], r)
  {
    forall r
      ensures InAll(p, toks, r) <==> r in Get(p, toks[0]) && InAll(p, toks[1..], r)
    {
      assert forall k | 1 <= k < |toks| :: toks[k] == toks[1..][k - 1];
    }
  }

  lemma {:induction false} NarrowMeans(p: Postings, acc: seq<nat>, toks: seq<string>)
    requires Ascending(acc) && forall t | t in p :: Ascending(p[t])
    ensures Ascending(Narrow(p, acc, toks))
    ensures forall r :: r in Narrow(p, acc, toks) <==> r in acc && InAll(p, toks, r)
    decreases |toks|
  {
    hide Ascending, Intersection;
    if toks != [] {
      hide InAll;
      InAllFirst(p, toks);
      if toks[0] in p {
        IntersectionMeans(acc, p[toks[0]]);
        NarrowMeans(p, Intersection(acc, p[toks[0]]), toks[1..]);
      } else {
        assert Get(p, toks[0]) == [];
        NothingAscends();
      }
    }
  }

  lemma NothingAscends()
    ensures Ascending([])
  {}

  /** A search finds, in ascending order, the record numbers that every token of the query lists. */
  lemma HitsMean(p: Postings, toks: seq<string>)
    requires forall t | t in p :: Ascending(p[t])
    ensures Ascending(Hits(p, toks))
    ensures forall r :: r in Hits(p, toks) <==> toks != [] && InAll(p, toks, r)
  {
    hide Ascending, Narrow, InAll;
    NothingAscends();
    if toks != [] {
      InAllFirst(p, toks);
      if toks[0] in p {
        NarrowMeans(p, p[toks[0]], toks[1..]);
      } else {
        assert Get(p, toks[0]) == [];
      }
    }
  }

  /** A query finds the same records in any case. */
  lemma QueryCase(p: Postings, q: string, r: string, opts: Options)
    requires SameLetters(q, r) && CaseClosed(opts)
    ensures Hits(p, FtsTokens.Tokens(q, opts)) == Hits(p, FtsTokens.Tokens(r, opts))
  {
    CaseDoesNotMatter("", q, r, opts);
  }

  // ----- from the table to the hits

  predicate MentionsAll(src: Source, f: nat, opts: Options, toks: seq<string>, r: nat)
    requires src.Valid() && f < |src.fields|
  {
    forall k | 0 <= k < |toks| :: Mentions(src, f, opts, toks[k], r)
  }

  /** The records from `r` on that mention every token, by looking at each. */
  function Matches(src: Source, f: nat, opts: Options, toks: seq<string>, r: nat): seq<nat>
    requires src.Valid() && f < |src.fields|
    decreases |src.rows| + 1 - r
  {
    if r > |src.rows| then []
    else (if MentionsAll(src, f, opts, toks, r) then [r] else []) + Matches(src, f, opts, toks, r + 1)
  }

  lemma {:induction false} MatchesMean(src: Source, f: nat, opts: Options, toks: seq<string>, r: nat)
    requires src.Valid() && f < |src.fields|
    ensures var ms := Matches(src, f, opts, toks, r);
      && Ascending(ms)
      && forall q :: q in ms <==> r <= q <= |src.rows| && MentionsAll(src, f, opts, toks, q)
    decreases |src.rows| + 1 - r
  {
    hide MentionsAll;
    if r <= |src.rows| {
      MatchesMean(src, f, opts, toks, r + 1);
      var rest := Matches(src, f, opts, toks, r + 1);
      forall k | 0 <= k < |rest|
        ensures r < rest[k]
      {
        assert rest[k] in rest;
      }
    }
  }

  /** The tokens of an index are plain, and its record numbers fit 32 bits. */
  lemma IndexIsWritable(ps: seq<Posting>, src: Source, f: nat, opts: Options)
    requires src.Valid() && f < |src.fields| && IsIndex(ps, src, f, opts)
    ensures Writable(ps)
  {
    hide Plain;
    forall k, r | 0 <= k < |ps| && r in ps[k].recnos
      ensures r < UINT32 && ps[k].token != "" && Plain(ps[k].token)
    {
      RecnosAt(ps, k);
      assert r in Recnos(ps, ps[k].token);
      EmptyIsPlain();
      TokensArePlain("", src.rows[r - 1].texts[f], opts, ps[k].token);
    }
    forall k | 0 <= k < |ps|
      ensures ps[k].token != "" && Plain(ps[k].token)
      ensures forall i | 0 <= i < |ps[k].recnos| :: ps[k].recnos[i] < UINT32
    {
      assert ps[k].recnos[0] in ps[k].recnos;
      assert forall i | 0 <= i < |ps[k].recnos| :: ps[k].recnos[i] in ps[k].recnos;
    }
  }

  lemma EmptyIsPlain()
    ensures Plain("")
  {}

  lemma {:induction false} RecnosAt(ps: seq<Posting>, k: nat)
    requires WellOrdered(ps) && k < |ps|
    ensures Recnos(ps, ps[k].token) == ps[k].recnos
  {
    if k > 0 {
      KeyOrder.Irreflexive(ps[k].token);
      RecnosAt(ps[1..], k - 1);
    }
  }

  /** Building, writing, loading and searching find what looking at every record finds. */
  lemma EndToEnd(src: Source, f: nat, opts: Options, ps: seq<Posting>, tag: string, field: string, query: string, ulongMax: nat)
    requires src.Valid() && f < |src.fields| && IsIndex(ps, src, f, opts)
    requires AllHarmless(LinesOf(Header(tag, field, opts)), ps) && ulongMax >= UINT32 - 1
    requires FtsTokens.Tokens(query, opts) != []
    ensures Loading(FileText(ps, tag, field, opts), ulongMax) == Loaded(AsMap(ps))
    ensures var toks := FtsTokens.Tokens(query, opts);
      Hits(AsMap(ps), toks) == Matches(src, f, opts, toks, 1)
  {
    hide FtsTokens.Tokens, AllHarmless, LinesOf, Header, Loading, FileText, Hits, Matches, Merge, Writable, Ascending, WellOrdered, Recnos, InAll, MentionsAll;
    var toks := FtsTokens.Tokens(query, opts);
    var p := AsMap(ps);
    IndexIsWritable(ps, src, f, opts);
    FileRoundTrip(ps, tag, field, opts, ulongMax);
    IndexMap(ps);
    HitsMean(p, toks);
    MatchesMean(src, f, opts, toks, 1);
    SameHits(src, f, opts, ps, toks);
    AscendingUnique(Hits(p, toks), Matches(src, f, opts, toks, 1));
  }

  /** As a map, an index lists for each token what it lists. */
  lemma IndexMap(ps: seq<Posting>)
    requires WellOrdered(ps)
    ensures forall t :: Get(AsMap(ps), t) == Recnos(ps, t)
    ensures forall t | t in AsMap(ps) :: Ascending(AsMap(ps)[t])
  {
    hide Merge, Ascending, WellOrdered, Recnos;
    MergeMeans(map[], ps);
    forall t
      ensures Get(AsMap(ps), t) == Recnos(ps, t) && Ascending(Get(AsMap(ps), t))
    {
      RecnosAscend(ps, t);
      assert Get(AsMap(ps), t) == [] + Recnos(ps, t);
    }
  }

  /** A record is in every list just when it mentions every token. */
  lemma SameHits(src: Source, f: nat, opts: Options, ps: seq<Posting>, toks: seq<string>)
    requires src.Valid() && f < |src.fields| && IsIndex(ps, src, f, opts) && toks != []
    ensures forall r: nat :: InAll(AsMap(ps), toks, r) <==> 1 <= r <= |src.rows| && MentionsAll(src, f, opts, toks, r)
  {
    hide FtsTokens.Tokens, WellOrdered, Recnos, AsMap;
    IndexMap(ps);
    forall r: nat
      ensures InAll(AsMap(ps), toks, r) <==> 1 <= r <= |src.rows| && MentionsAll(src, f, opts, toks, r)
    {
      if InAll(AsMap(ps), toks, r) {
        assert r in Get(AsMap(ps), toks[0]);
      }
    }
  }

  /** Indexes a field of a table, loads the index, and searches it; `None` if there is no such field. */
  method CreateAndSearch(src: Source, tag: string, field: string, opts: Options, query: string, ulongMax: nat)
      returns (hits: Option<seq<nat>>)
    requires src.Valid() && ulongMax >= UINT32 - 1 && NoneForges(LinesOf(Header(tag, field, opts)))
    ensures var f, toks := FieldIndex(src.fields, field), FtsTokens.Tokens(query, opts);
      hits == if f == |src.fields| then None else if toks == [] then Some([]) else Some(Matches(src, f, opts, toks, 1))
  {
    hide FtsTokens.Tokens, LinesOf, Header, Loading, Merge, Matches, Forges;
    var created := Create(src, tag, field, opts);
    if created.FieldNotFound? { return None; }
    var f := FieldIndex(src.fields, field);
    ghost var ps :| IsIndex(ps, src, f, opts) && created.text == FileText(ps, tag, field, opts);
    IndexIsWritable(ps, src, f, opts);
    FileRoundTrip(ps, tag, field, opts, ulongMax);
    var loaded := Load(created.text, ulongMax);
    var found := Search(loaded.postings, query, opts);
    if FtsTokens.Tokens(query, opts) != [] {
      EndToEnd(src, f, opts, ps, tag, field, query, ulongMax);
    }
    return Some(found);
  }
}

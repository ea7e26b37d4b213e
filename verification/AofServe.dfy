/** A leaf answered by walking an index: which records the walks mark, for each operator. */
module AofServe {
  import opened Text
  import opened Aof
  import opened KeyOrder
  import opened AofIndex
  import opened AofEval
  import opened Dbf

  // ----- a leaf answered from an index

  function FindIndex(indexes: seq<Index?>, want: string): (x: Index?)
    ensures x != null ==> x in indexes && Upper(x.expression) == want
    ensures x == null ==> forall k | 0 <= k < |indexes| :: indexes[k] != null ==> Upper(indexes[k].expression) != want
  {
    if indexes == [] then null
    else if indexes[0] != null && Upper(indexes[0].expression) == want then indexes[0]
    else FindIndex(indexes[1..], want)
  }

  /** The index a leaf's field has, if its type allows one. */
  function LeafIndex(leaf: Node, t: Table): (x: Index?)
    requires leaf.Leaf?
    ensures x != null ==> x in t.Cursors() && Upper(x.expression) == Upper(leaf.field)
  {
    var i := FieldIndex(t.fields, leaf.field);
    if i < |t.fields| && (t.fields[i].kind == Character || t.fields[i].kind == Memo)
    then FindIndex(t.indexes, Upper(leaf.field)) else null
  }

  /** The literals of the leaf that become keys. */
  function Operands(op: Op, values: seq<Value>): seq<Value>
    requires HasOperands(op, |values|)
  {
    if op == Between then values[..2] else if op == In then values else values[..1]
  }

  predicate AllStrings(values: seq<Value>) { forall k | 0 <= k < |values| :: values[k].StrValue? }

  function Texts(values: seq<Value>): (ts: seq<string>)
    requires AllStrings(values)
    ensures |ts| == |values| && forall k | 0 <= k < |ts| :: ts[k] == values[k].s
  {
    seq(|values|, k requires 0 <= k < |values| => values[k].s)
  }

  /** The node is a leaf that is answered from an index. */
  predicate Served(n: Node, t: Table) {
    n.Leaf? && HasLiterals(n) && LeafIndex(n, t) != null && AllStrings(Operands(n.op, n.values))
  }

  /** A leaf is served by the first index of its name, in any case, that the table has for its Character
      or Memo field, if there is one and the literals are strings. */
  lemma ServedWhen(leaf: Node, t: Table, i: nat, k: nat)
    requires leaf.Leaf? && HasLiterals(leaf) && i <= |t.fields| && k <= |t.indexes|
    requires forall j | 0 <= j < i :: !SameLetters(t.fields[j].name, leaf.field)
    requires i < |t.fields| ==> SameLetters(t.fields[i].name, leaf.field)
    requires forall j | 0 <= j < k && t.indexes[j] != null :: !SameLetters(t.indexes[j].expression, leaf.field)
    requires k < |t.indexes| ==> t.indexes[k] != null && SameLetters(t.indexes[k].expression, leaf.field)
    ensures Served(leaf, t) <==>
      && i < |t.fields| && (t.fields[i].kind == Character || t.fields[i].kind == Memo) && k < |t.indexes|
      && forall j | 0 <= j < |leaf.values| :: (leaf.op == In || j == 0 || (leaf.op == Between && j == 1)) ==> leaf.values[j].StrValue?
    ensures Served(leaf, t) ==> LeafIndex(leaf, t) == t.indexes[k]
  {
    FirstOfName(t.fields, leaf.field, i);
    FirstIndex(t.indexes, leaf.field, k);
    var vs := Operands(leaf.op, leaf.values);
    assert forall j | 0 <= j < |vs| :: vs[j] == leaf.values[j];
  }

  lemma {:induction false} FirstIndex(indexes: seq<Index?>, name: string, k: nat)
    requires k <= |indexes|
    requires forall j | 0 <= j < k && indexes[j] != null :: !SameLetters(indexes[j].expression, name)
    requires k < |indexes| ==> indexes[k] != null && SameLetters(indexes[k].expression, name)
    ensures FindIndex(indexes, Upper(name)) == if k < |indexes| then indexes[k] else null
  {
    if indexes != [] {
      if indexes[0] != null { UpperFoldsCase(indexes[0].expression, name); }
      if k > 0 {
        FirstIndex(indexes[1..], name, k - 1);
      }
    }
  }

  /** The index that answers the leaf. */
  function Server(leaf: Node, t: Table): (x: Index)
    requires Served(leaf, t)
    ensures x in t.Cursors() && Upper(x.expression) == Upper(leaf.field)
    ensures var i := FieldIndex(t.fields, leaf.field);
      i < |t.fields| && (t.fields[i].kind == Character || t.fields[i].kind == Memo)
  {
    LeafIndex(leaf, t)
  }

  function LeafTexts(leaf: Node, t: Table): (ts: seq<string>)
    requires Served(leaf, t)
    ensures HasOperands(leaf.op, |ts|)
  {
    Texts(Operands(leaf.op, leaf.values))
  }

  function LeafKeys(leaf: Node, t: Table): (ks: seq<string>)
    requires Served(leaf, t)
    ensures HasOperands(leaf.op, |ks|)
  {
    Keys(LeafTexts(leaf, t), Server(leaf, t).keyLength)
  }

  /** A soft seek that passed every key of an NTX index: the walk starts on the last entry all the same. */
  predicate Overshoots(x: Index, op: Op, keys: seq<string>)
    requires HasOperands(op, |keys|)
  {
    && x.driver.Ntx? && x.entries != [] && (op == Ge || op == Gt || op == Between)
    && Below(x.entries[|x.entries| - 1].key, keys[0])
    && (op == Between ==> AtMost(x.entries[|x.entries| - 1].key, keys[1]))
  }

  /** Entry `k` is one the scan for `op` visits. */
  predicate Visited(x: Index, op: Op, keys: seq<string>, k: nat)
    requires HasOperands(op, |keys|) && k < |x.entries|
  {
    Satisfies(op, keys, x.entries[k].key) || (k == |x.entries| - 1 && Overshoots(x, op, keys))
  }

  /** The bit that the scan leaves for record `r`. */
  ghost predicate ServedBit(x: Index, op: Op, keys: seq<string>, r: nat)
    requires HasOperands(op, |keys|)
  {
    if op == Ne then !exists k | 0 <= k < |x.entries| :: x.entries[k].recno == r && x.entries[k].key == keys[0]
    else exists k | 0 <= k < |x.entries| :: x.entries[k].recno == r && Visited(x, op, keys, k)
  }

  /** The bit for record `r` of a leaf that is answered from its index. */
  ghost predicate LeafBit(leaf: Node, t: Table, r: nat)
    requires Served(leaf, t)
  {
    ServedBit(Server(leaf, t), leaf.op, LeafKeys(leaf, t), r)
  }

  /** `bm` is what the scan for `op` leaves, on top of `bm0`. */
  ghost predicate Scanned(x: Index, op: Op, keys: seq<string>, bm0: seq<bool>, bm: seq<bool>)
    requires HasOperands(op, |keys|) && op != Ne
  {
    && |bm| == |bm0|
    && forall i | 0 <= i < |bm| :: bm[i] == (bm0[i] || ServedBit(x, op, keys, i + 1))
  }

  /** A walk from `i` to `j` is the scan for `op` if it passes exactly the entries that `op` visits. */
  lemma WalkIsScan(x: Index, op: Op, keys: seq<string>, bm: seq<bool>, i: nat, j: nat)
    requires HasOperands(op, |keys|) && op != Ne && i <= j <= |x.entries|
    requires forall k | 0 <= k < |x.entries| :: Visited(x, op, keys, k) <==> i <= k < j
    ensures Scanned(x, op, keys, bm, Mark(bm, x.entries, i, j))
  {
    hide Visited;
    var after := Mark(bm, x.entries, i, j);
    forall b | 0 <= b < |after|
      ensures after[b] == (bm[b] || ServedBit(x, op, keys, b + 1))
    {
      var r := b + 1;
      MarkBits(bm, x.entries, i, j, r);
      if k :| i <= k < j && x.entries[k].recno == r {
        assert Visited(x, op, keys, k);
        assert ServedBit(x, op, keys, r);
      }
      if ServedBit(x, op, keys, r) {
        var k :| 0 <= k < |x.entries| && x.entries[k].recno == r && Visited(x, op, keys, k);
        assert i <= k < j;
      }
    }
  }

  /** In a sorted index, what lies below a key comes first. */
  lemma BelowComesFirst(entries: seq<Entry>, i: nat, j: nat, key: string)
    requires Sorted(entries) && i <= j < |entries|
    ensures Below(entries[j].key, key) ==> Below(entries[i].key, key)
    ensures AtMost(entries[j].key, key) ==> AtMost(entries[i].key, key)
  {
    var a, b := entries[i].key, entries[j].key;
    Trichotomy(a, b);
    Trichotomy(a, key);
    Trichotomy(b, key);
    if a != b && Below(b, key) {
      Transitive(a, b, key);
    } else if a != b && Below(key, a) {
      Transitive(key, a, b);
    }
  }

  /** A walk from `p` is the scan for `op` if nothing before `p` counts, if it stops at an entry that
      does not count, and if nothing after such an entry counts. */
  lemma WalkFrom(x: Index, op: Op, keys: seq<string>, bm: seq<bool>, p: nat, keep: (nat, string) -> bool)
    requires HasOperands(op, |keys|) && op != Ne && p <= |x.entries|
    requires forall k | 0 <= k < p :: !Visited(x, op, keys, k)
    requires forall k | p <= k < |x.entries| :: keep(x.entries[k].recno, x.entries[k].key) <==> Visited(x, op, keys, k)
    requires forall i, j | p <= i <= j < |x.entries| && Visited(x, op, keys, j) :: Visited(x, op, keys, i)
    ensures Scanned(x, op, keys, bm, Mark(bm, x.entries, p, WalkEnd(x.entries, p, keep)))
  {
    hide Visited;
    WalkIsScan(x, op, keys, bm, p, WalkEnd(x.entries, p, keep));
  }

  /** A scan that finds nothing. */
  lemma EmptyScan(x: Index, op: Op, keys: seq<string>, bm: seq<bool>)
    requires HasOperands(op, |keys|) && op != Ne
    requires forall k | 0 <= k < |x.entries| :: !Visited(x, op, keys, k)
    ensures Scanned(x, op, keys, bm, bm)
  {
    WalkIsScan(x, op, keys, bm, 0, 0);
  }

  method EqScan(x: Index, key: string, bm: seq<bool>) returns (bm': seq<bool>)
    requires x.Valid() && |key| == x.keyLength
    modifies x
    ensures x.Valid() && Scanned(x, Eq, [key], bm, bm')
  {
    var p := LowerBound(x.entries, key, 0);
    EqRun(x, key);
    x.FullKey(key);
    var seek := x.SeekKey(key, false);
    if seek.hit != Exact {
      EmptyScan(x, Eq, [key], bm);
      return bm;
    }
    var keep := (_: nat, k: string) => k == key;
    bm' := RangeWalk(x, bm, |bm|, seek, keep);
    WalkFrom(x, Eq, [key], bm, p, keep);
  }

  /** The equal keys are one run that starts at the lower bound. */
  lemma EqRun(x: Index, key: string)
    requires Sorted(x.entries)
    ensures var p := LowerBound(x.entries, key, 0);
      && (forall k | 0 <= k < |x.entries| :: Visited(x, Eq, [key], k) <==> x.entries[k].key == key)
      && (forall k | 0 <= k < p :: x.entries[k].key != key)
      && (forall i, j | p <= i <= j < |x.entries| && x.entries[j].key == key :: x.entries[i].key == key)
  {
    var p := LowerBound(x.entries, key, 0);
    forall k | 0 <= k < p
      ensures x.entries[k].key != key
    {
      Irreflexive(key);
    }
    forall i, j | p <= i <= j < |x.entries| && x.entries[j].key == key
      ensures x.entries[i].key == key
    {
      BelowComesFirst(x.entries, p, i, key);
      Irreflexive(key);
      BelowComesFirst(x.entries, i, j, key);
      Trichotomy(x.entries[i].key, key);
    }
  }

  method LeScan(x: Index, key: string, bm: seq<bool>) returns (bm': seq<bool>)
    requires x.Valid()
    modifies x
    ensures x.Valid() && Scanned(x, Le, [key], bm, bm')
  {
    var seek := x.SeekFirst();
    var keep := (_: nat, k: string) => AtMost(k, key);
    bm' := RangeWalk(x, bm, |bm|, seek, keep);
    forall i, j | 0 <= i <= j < |x.entries| && Visited(x, Le, [key], j)
      ensures Visited(x, Le, [key], i)
    {
      BelowComesFirst(x.entries, i, j, key);
    }
    WalkFrom(x, Le, [key], bm, 0, keep);
  }

  method LtScan(x: Index, key: string, bm: seq<bool>) returns (bm': seq<bool>)
    requires x.Valid()
    modifies x
    ensures x.Valid() && Scanned(x, Lt, [key], bm, bm')
  {
    var seek := x.SeekFirst();
    var keep := (_: nat, k: string) => Below(k, key);
    bm' := RangeWalk(x, bm, |bm|, seek, keep);
    forall i, j | 0 <= i <= j < |x.entries| && Visited(x, Lt, [key], j)
      ensures Visited(x, Lt, [key], i)
    {
      BelowComesFirst(x.entries, i, j, key);
    }
    WalkFrom(x, Lt, [key], bm, 0, keep);
  }

  /** Where a soft seek lands; `|entries|` if it leaves the index unpositioned. */
  function Landing(x: Index, key: string): (p: nat)
    ensures p <= |x.entries|
  {
    var p := LowerBound(x.entries, key, 0);
    if p == |x.entries| && x.driver.Ntx? && x.entries != [] then p - 1 else p
  }

  /** What a soft seek skips is below the key, and what it does not skip is not, unless it overshoots. */
  lemma SoftSeek(x: Index, key: string)
    requires Sorted(x.entries)
    ensures var p := Landing(x, key);
      && (forall k | 0 <= k < p :: Below(x.entries[k].key, key))
      && (forall k | p <= k < |x.entries| :: Below(x.entries[k].key, key) <==> Overshoots(x, Ge, [key]))
      && (Overshoots(x, Ge, [key]) ==> p == |x.entries| - 1)
  {
    var b := LowerBound(x.entries, key, 0);
    forall k | b <= k < |x.entries|
      ensures !Below(x.entries[k].key, key)
    {
      BelowComesFirst(x.entries, b, k, key);
    }
  }

  method GeScan(x: Index, key: string, bm: seq<bool>) returns (bm': seq<bool>)
    requires x.Valid() && |key| == x.keyLength
    modifies x
    ensures x.Valid() && Scanned(x, Ge, [key], bm, bm')
  {
    hide Below, Sorted, LowerBound, PadKey, Mark, WalkEnd, x.Missed, x.Seen, x.Wanted, x.Compared;
    SoftSeek(x, key);
    x.FullKey(key);
    var seek := x.SeekKey(key, true);
    if !seek.positioned {
      EmptyScan(x, Ge, [key], bm);
      return bm;
    }
    var keep := (_: nat, _: string) => true;
    bm' := RangeWalk(x, bm, |bm|, seek, keep);
    WalkFrom(x, Ge, [key], bm, Landing(x, key), keep);
  }

  method GtScan(x: Index, key: string, bm: seq<bool>) returns (bm': seq<bool>)
    requires x.Valid() && |key| == x.keyLength
    modifies x
    ensures x.Valid() && Scanned(x, Gt, [key], bm, bm')
  {
    hide Below, Visited, Satisfies, Sorted, LowerBound, Overshoots, PadKey, Mark, WalkEnd, x.Missed, x.Seen, x.Wanted, x.Compared;
    x.FullKey(key);
    var cur := x.SeekKey(key, true);
    ghost var i := Landing(x, key);
    while cur.positioned && x.currentKey == key
      invariant x.Valid() && x.Stands(cur) && Landing(x, key) <= i <= |x.entries|
      invariant cur.positioned ==> x.cursor == On(i)
      invariant !cur.positioned ==> i == |x.entries|
      invariant forall k | Landing(x, key) <= k < i :: x.entries[k].key == key
      decreases |x.entries| - i
    {
      cur := x.Next();
      i := i + 1;
    }
    var keep := (_: nat, _: string) => true;
    bm' := RangeWalk(x, bm, |bm|, cur, keep);
    GtRun(x, key, i);
    WalkFrom(x, Gt, [key], bm, i, keep);
  }

  /** After the run of equal keys come the greater ones, and the entry that an overshoot stands on. */
  lemma GtRun(x: Index, key: string, i: nat)
    requires Sorted(x.entries) && Landing(x, key) <= i <= |x.entries|
    requires forall k | Landing(x, key) <= k < i :: x.entries[k].key == key
    requires i < |x.entries| ==> x.entries[i].key != key
    ensures forall k | 0 <= k < |x.entries| :: Visited(x, Gt, [key], k) <==> i <= k
  {
    SoftSeek(x, key);
    forall k | 0 <= k < |x.entries|
      ensures Visited(x, Gt, [key], k) <==> i <= k
    {
      Trichotomy(x.entries[k].key, key);
      if i <= k {
        Trichotomy(x.entries[i].key, key);
        BelowComesFirst(x.entries, i, k, key);
      }
    }
  }

  method BetweenScan(x: Index, lo: string, hi: string, bm: seq<bool>) returns (bm': seq<bool>)
    requires x.Valid() && |lo| == x.keyLength
    modifies x
    ensures x.Valid() && Scanned(x, Between, [lo, hi], bm, bm')
  {
    hide Below, Visited, Satisfies, Sorted, LowerBound, Overshoots, PadKey, Mark, WalkEnd, x.Missed, x.Seen, x.Wanted, x.Compared;
    BetweenRun(x, lo, hi);
    x.FullKey(lo);
    var seek := x.SeekKey(lo, true);
    if !seek.positioned {
      EmptyScan(x, Between, [lo, hi], bm);
      return bm;
    }
    var keep := (_: nat, k: string) => AtMost(k, hi);
    bm' := RangeWalk(x, bm, |bm|, seek, keep);
    WalkFrom(x, Between, [lo, hi], bm, Landing(x, lo), keep);
  }

  /** From where the seek for the lower bound lands, the upper bound decides alone. */
  lemma BetweenRun(x: Index, lo: string, hi: string)
    requires Sorted(x.entries)
    ensures var p := Landing(x, lo);
      && (forall k | 0 <= k < p :: !Visited(x, Between, [lo, hi], k))
      && (forall k | p <= k < |x.entries| :: Visited(x, Between, [lo, hi], k) <==> AtMost(x.entries[k].key, hi))
      && (forall i, j | p <= i <= j < |x.entries| && AtMost(x.entries[j].key, hi) :: AtMost(x.entries[i].key, hi))
  {
    SoftSeek(x, lo);
    forall i, j | 0 <= i <= j < |x.entries| && AtMost(x.entries[j].key, hi)
      ensures AtMost(x.entries[i].key, hi)
    {
      BelowComesFirst(x.entries, i, j, hi);
    }
  }

  method NeScan(x: Index, key: string, rc: nat) returns (bm: seq<bool>)
    requires x.Valid() && |key| == x.keyLength
    modifies x
    ensures x.Valid() && |bm| == rc && forall i | 0 <= i < rc :: bm[i] == ServedBit(x, Ne, [key], i + 1)
  {
    var equal := EqScan(x, key, seq(rc, _ => false));
    bm := seq(rc, _ => true);
    var i := 0;
    while i < rc
      invariant 0 <= i <= rc && |bm| == rc
      invariant forall j | 0 <= j < rc :: bm[j] == (j < i ==> !equal[j])
    {
      if equal[i] { bm := bm[i := false]; }
      i := i + 1;
    }
  }

  /** Scans for each literal in turn; `None` at the first one that is no string. */
  method InScan(x: Index, values: seq<Value>, rc: nat) returns (r: Option<seq<bool>>)
    requires x.Valid()
    modifies x
    ensures x.Valid() && (r.Some? <==> AllStrings(values))
    ensures r.Some? ==> |r.value| == rc
    ensures r.Some? ==> forall i | 0 <= i < rc :: r.value[i] == ServedBit(x, In, Keys(Texts(values), x.keyLength), i + 1)
  {
    hide ServedBit, Visited, PadKey, Keys, Texts;
    var bm := seq(rc, _ => false);
    var n := 0;
    NoKeys(x, Keys(Texts(values[..0]), x.keyLength));
    while n < |values|
      invariant 0 <= n <= |values| && |bm| == rc && x.Valid() && AllStrings(values[..n])
      invariant forall i | 0 <= i < rc :: bm[i] == ServedBit(x, In, Keys(Texts(values[..n]), x.keyLength), i + 1)
    {
      if !values[n].StrValue? {
        return None;
      }
      var key := PadKey(values[n].s, x.keyLength);
      ghost var keys := Keys(Texts(values[..n]), x.keyLength);
      bm := EqScan(x, key, bm);
      KeysSnoc(values, n, x.keyLength);
      OneMoreKey(x, keys, key);
      n := n + 1;
    }
    assert values[..n] == values;
    return Some(bm);
  }

  lemma NoKeys(x: Index, keys: seq<string>)
    requires keys == []
    ensures forall r :: !ServedBit(x, In, keys, r)
  {}

  lemma KeysSnoc(values: seq<Value>, n: nat, klen: nat)
    requires n < |values| && AllStrings(values[..n]) && values[n].StrValue?
    ensures AllStrings(values[..n + 1])
    ensures Keys(Texts(values[..n + 1]), klen) == Keys(Texts(values[..n]), klen) + [PadKey(values[n].s, klen)]
  {
    hide PadKey;
    var vs := values[..n + 1];
    assert forall k | 0 <= k < n :: vs[k] == values[..n][k];
  }

  lemma OneMoreKey(x: Index, keys: seq<string>, key: string)
    ensures forall r :: ServedBit(x, In, keys + [key], r) <==> ServedBit(x, In, keys, r) || ServedBit(x, Eq, [key], r)
  {
    forall k | 0 <= k < |x.entries|
      ensures Visited(x, In, keys + [key], k) <==> Visited(x, In, keys, k) || Visited(x, Eq, [key], k)
    {
    }
  }

  /** `serve_leaf_via_index` */
  method ServeLeaf(leaf: Node, t: Table) returns (r: Option<seq<bool>>)
    requires leaf.Leaf? && HasLiterals(leaf) && t.IndexesValid()
    modifies t.Cursors()
    ensures t.IndexesValid() && (r.Some? <==> Served(leaf, t))
    ensures r.Some? ==> |r.value| == |t.records|
    ensures r.Some? ==> forall i | 0 <= i < |t.records| :: r.value[i] == LeafBit(leaf, t, i + 1)
  {
    var x := LeafIndex(leaf, t);
    if x == null { return None; }
    var rc, klen := |t.records|, x.keyLength;
    if leaf.op == In {
      r := InScan(x, leaf.values, rc);
      return;
    }
    if !leaf.values[0].StrValue? || (leaf.op == Between && !leaf.values[1].StrValue?) { return None; }
    var none, key := seq(rc, _ => false), PadKey(leaf.values[0].s, klen);
    var bm: seq<bool>;
    match leaf.op {
      case Eq => bm := EqScan(x, key, none);
      case Le => bm := LeScan(x, key, none);
      case Lt => bm := LtScan(x, key, none);
      case Ge => bm := GeScan(x, key, none);
      case Gt => bm := GtScan(x, key, none);
      case Between => bm := BetweenScan(x, key, PadKey(leaf.values[1].s, klen), none);
      case Ne => bm := NeScan(x, key, rc);
    }
    assert Keys(Texts(Operands(leaf.op, leaf.values)), klen) ==
      if leaf.op == Between then [key, PadKey(leaf.values[1].s, klen)] else [key];
    return Some(bm);
  }
}

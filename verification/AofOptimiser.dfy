/** The evaluator that answers leaves from indexes, and when it finds what the full scan finds. */
module AofOptimiser {
  import opened Aof
  import opened KeyOrder
  import opened AofIndex
  import opened AofEval
  import opened AofServe
  import opened Dbf

  // ----- the evaluator

  /** The bit the optimised evaluator leaves for record `r`. */
  ghost predicate OptimisedBit(n: Node, t: Table, r: nat)
    requires HasLiterals(n) && t.WellFormed() && 1 <= r <= |t.records|
    decreases n
  {
    match n
    case Leaf(_, _, _) => if Served(n, t) then LeafBit(n, t, r) else LeafHolds(n, t, r)
    case And(kids) => forall k | 0 <= k < |kids| :: OptimisedBit(kids[k], t, r)
    case Or(kids) => exists k | 0 <= k < |kids| :: OptimisedBit(kids[k], t, r)
    case Not(child) => !OptimisedBit(child, t, r)
  }

  ghost predicate IsOptimised(n: Node, t: Table, bm: seq<bool>)
    requires HasLiterals(n) && t.WellFormed()
  {
    |bm| == |t.records| && forall i | 0 <= i < |bm| :: bm[i] == OptimisedBit(n, t, i + 1)
  }

  /** The leaves of a filter, from left to right. */
  function Leaves(n: Node): seq<Node>
    decreases n, 1
  {
    match n
    case Leaf(_, _, _) => [n]
    case And(kids) => LeavesOfKids(n, |kids|)
    case Or(kids) => LeavesOfKids(n, |kids|)
    case Not(child) => Leaves(child)
  }

  /** The leaves of the first `k` kids. */
  function LeavesOfKids(n: Node, k: nat): seq<Node>
    requires (n.And? || n.Or?) && k <= |n.kids|
    decreases n, 0, k
  {
    if k == 0 then [] else LeavesOfKids(n, k - 1) + Leaves(n.kids[k - 1])
  }

  function ServedCount(ls: seq<Node>, t: Table): (c: nat)
    ensures c <= |ls|
  {
    if ls == [] then 0
    else ServedCount(ls[..|ls| - 1], t) + if Served(ls[|ls| - 1], t) then 1 else 0
  }

  lemma {:induction false} ServedCountMeans(ls: seq<Node>, t: Table)
    ensures ServedCount(ls, t) == 0 <==> forall k | 0 <= k < |ls| :: !Served(ls[k], t)
    ensures ServedCount(ls, t) == |ls| <==> forall k | 0 <= k < |ls| :: Served(ls[k], t)
  {
    hide Served;
    if ls != [] {
      ServedCountMeans(ls[..|ls| - 1], t);
    }
  }

  class LeafCounter {
    var total: nat
    var served: nat

    constructor ()
      ensures total == served == 0
    {
      total, served := 0, 0;
    }
  }

  /** `other` removed from `acc`, bit by bit, where it is false. */
  method Intersect(acc: seq<bool>, other: seq<bool>) returns (r: seq<bool>)
    requires |acc| == |other|
    ensures |r| == |acc| && forall i | 0 <= i < |r| :: r[i] == (acc[i] && other[i])
  {
    r := acc;
    for i := 0 to |r|
      invariant |r| == |acc| && forall j | 0 <= j < |r| :: r[j] == if j < i then acc[j] && other[j] else acc[j]
    {
      if !other[i] { r := r[i := false]; }
    }
  }

  method Unite(acc: seq<bool>, other: seq<bool>) returns (r: seq<bool>)
    requires |acc| == |other|
    ensures |r| == |acc| && forall i | 0 <= i < |r| :: r[i] == (acc[i] || other[i])
  {
    r := acc;
    for i := 0 to |r|
      invariant |r| == |acc| && forall j | 0 <= j < |r| :: r[j] == if j < i then acc[j] || other[j] else acc[j]
    {
      if other[i] { r := r[i := true]; }
    }
  }

  method Invert(bm: seq<bool>) returns (r: seq<bool>)
    ensures |r| == |bm| && forall i | 0 <= i < |r| :: r[i] == !bm[i]
  {
    r := bm;
    for i := 0 to |r|
      invariant |r| == |bm| && forall j | 0 <= j < |r| :: r[j] == if j < i then !bm[j] else bm[j]
    {
      r := r[i := !r[i]];
    }
  }

  /** `eval_optimised_node`.  Its two size-mismatch errors cannot happen: the operands of `Intersect` and
      `Unite` always have one bit per record. */
  method EvalOptimised(n: Node, t: Table, lc: LeafCounter) returns (bm: seq<bool>)
    requires HasLiterals(n) && t.WellFormed() && t.IndexesValid()
    modifies t, t.Cursors(), lc
    ensures t.IndexesValid() && IsOptimised(n, t, bm)
    ensures lc.total == old(lc.total) + |Leaves(n)|
    ensures lc.served == old(lc.served) + ServedCount(Leaves(n), t)
    decreases n, 1
  {
    match n
    case Leaf(_, _, _) => bm := EvalLeaf(n, t, lc);
    case And(kids) => bm := EvalAnd(n, t, lc);
    case Or(kids) => bm := EvalOr(n, t, lc);
    case Not(child) =>
      var inner := EvalOptimised(child, t, lc);
      bm := Invert(inner);
  }

  method EvalLeaf(n: Node, t: Table, lc: LeafCounter) returns (bm: seq<bool>)
    requires n.Leaf? && HasLiterals(n) && t.WellFormed() && t.IndexesValid()
    modifies t, t.Cursors(), lc
    ensures t.IndexesValid() && IsOptimised(n, t, bm)
    ensures lc.total == old(lc.total) + 1
    ensures lc.served == old(lc.served) + ServedCount([n], t)
  {
    hide LeafBit, LeafHolds, Served;
    assert [n][..0] == [];
    lc.total := lc.total + 1;
    var answer := ServeLeaf(n, t);
    if answer.Some? {
      lc.served := lc.served + 1;
      return answer.value;
    }
    bm := seq(|t.records|, _ => false);
    var r := 1;
    while r <= |t.records|
      invariant 1 <= r <= |t.records| + 1 && |bm| == |t.records| && t.IndexesValid()
      invariant forall i | 0 <= i < r - 1 :: bm[i] == LeafHolds(n, t, i + 1)
      modifies t
    {
      t.Goto(r);
      bm := bm[r - 1 := LeafHolds(n, t, t.recno)];
      r := r + 1;
    }
  }

  method EvalAnd(n: Node, t: Table, lc: LeafCounter) returns (acc: seq<bool>)
    requires n.And? && HasLiterals(n) && t.WellFormed() && t.IndexesValid()
    modifies t, t.Cursors(), lc
    ensures t.IndexesValid() && IsOptimised(n, t, acc)
    ensures lc.total == old(lc.total) + |Leaves(n)|
    ensures lc.served == old(lc.served) + ServedCount(Leaves(n), t)
    decreases n, 0
  {
    hide Served, OptimisedBit, ServedCount;
    var kids, first := n.kids, true;
    acc := [];
    for k := 0 to |kids|
      invariant t.IndexesValid() && first == (k == 0)
      invariant !first ==> |acc| == |t.records|
      invariant !first ==> forall i | 0 <= i < |acc| ::
        acc[i] == forall j | 0 <= j < k :: OptimisedBit(kids[j], t, i + 1)
      invariant lc.total == old(lc.total) + |LeavesOfKids(n, k)|
      invariant lc.served == old(lc.served) + ServedCount(LeavesOfKids(n, k), t)
    {
      var other := EvalOptimised(kids[k], t, lc);
      ServedCountAppend(LeavesOfKids(n, k), Leaves(kids[k]), t);
      if first {
        acc, first := other, false;
      } else {
        acc := Intersect(acc, other);
      }
    }
    if first { acc := seq(|t.records|, _ => true); }
    AndOrBits(n, t);
  }

  method EvalOr(n: Node, t: Table, lc: LeafCounter) returns (acc: seq<bool>)
    requires n.Or? && HasLiterals(n) && t.WellFormed() && t.IndexesValid()
    modifies t, t.Cursors(), lc
    ensures t.IndexesValid() && IsOptimised(n, t, acc)
    ensures lc.total == old(lc.total) + |Leaves(n)|
    ensures lc.served == old(lc.served) + ServedCount(Leaves(n), t)
    decreases n, 0
  {
    hide Served, OptimisedBit, ServedCount;
    var kids := n.kids;
    acc := seq(|t.records|, _ => false);
    for k := 0 to |kids|
      invariant t.IndexesValid() && |acc| == |t.records|
      invariant forall i | 0 <= i < |acc| :: acc[i] == exists j | 0 <= j < k :: OptimisedBit(kids[j], t, i + 1)
      invariant lc.total == old(lc.total) + |LeavesOfKids(n, k)|
      invariant lc.served == old(lc.served) + ServedCount(LeavesOfKids(n, k), t)
    {
      var other := EvalOptimised(kids[k], t, lc);
      ServedCountAppend(LeavesOfKids(n, k), Leaves(kids[k]), t);
      acc := Unite(acc, other);
    }
    AndOrBits(n, t);
  }

  lemma AndOrBits(n: Node, t: Table)
    requires HasLiterals(n) && t.WellFormed()
    ensures n.And? ==> forall r | 1 <= r <= |t.records| ::
      OptimisedBit(n, t, r) <==> forall j | 0 <= j < |n.kids| :: OptimisedBit(n.kids[j], t, r)
    ensures n.Or? ==> forall r | 1 <= r <= |t.records| ::
      OptimisedBit(n, t, r) <==> exists j | 0 <= j < |n.kids| :: OptimisedBit(n.kids[j], t, r)
  {}

  lemma {:induction false} ServedCountAppend(a: seq<Node>, b: seq<Node>, t: Table)
    ensures ServedCount(a + b, t) == ServedCount(a, t) + ServedCount(b, t)
  {
    hide Served;
    if b == [] {
      assert a + b == a;
    } else {
      ServedCountAppend(a, b[..|b| - 1], t);
      assert (a + b)[..|a + b| - 1] == a + b[..|b| - 1];
    }
  }

  datatype OptLevel = NoLeaf | SomeLeaves | EveryLeaf

  /** `evaluate_optimised`, with the level that says how much an index has answered. */
  method EvaluateOptimised(n: Node, t: Table) returns (bm: seq<bool>, level: OptLevel)
    requires HasLiterals(n) && t.WellFormed() && t.IndexesValid()
    modifies t, t.Cursors()
    ensures t.IndexesValid() && IsOptimised(n, t, bm)
    ensures Sound(n, t) ==> bm == ScanBitmap(n, t)
    ensures level == NoLeaf <==> forall k | 0 <= k < |Leaves(n)| :: !Served(Leaves(n)[k], t)
    ensures level == EveryLeaf <==> Leaves(n) != [] && forall k | 0 <= k < |Leaves(n)| :: Served(Leaves(n)[k], t)
  {
    var lc := new LeafCounter();
    bm := EvalOptimised(n, t, lc);
    if Sound(n, t) { OptimisedIsScan(n, t, bm); }
    ServedCountMeans(Leaves(n), t);
    level :=
      if lc.total == 0 then NoLeaf
      else if lc.served == lc.total then EveryLeaf
      else if lc.served == 0 then NoLeaf
      else SomeLeaves;
  }

  // ----- when a served leaf is right

  function Column(t: Table, i: nat): (c: seq<string>)
    requires t.WellFormed() && i < |t.fields|
    ensures |c| == |t.records| && forall r | 0 <= r < |c| :: c[r] == t.records[r][i].text
  {
    seq(|t.records|, r requires 0 <= r < |t.records| => t.records[r][i].text)
  }

  ghost predicate Listed(x: Index, r: nat) { exists k :: 0 <= k < |x.entries| && x.entries[k].recno == r }

  /** Every record has an entry, and every entry holds the padded text of its record. */
  ghost predicate Faithful(x: Index, column: seq<string>) {
    && (forall k | 0 <= k < |x.entries| ::
          1 <= x.entries[k].recno <= |column| && x.entries[k].key == PadKey(column[x.entries[k].recno - 1], x.keyLength))
    && (forall r | 1 <= r <= |column| :: Listed(x, r))
    && (forall r | 0 <= r < |column| :: Fits(column[r], x.keyLength))
  }

  /** The index of a served leaf is faithful, and its keys tell the leaf's literals apart. */
  ghost predicate Trusted(leaf: Node, t: Table)
    requires Served(leaf, t) && t.WellFormed()
  {
    var x, texts := Server(leaf, t), LeafTexts(leaf, t);
    && Faithful(x, Column(t, FieldIndex(t.fields, leaf.field)))
    && LiteralsExact(leaf.op, texts, x.keyLength)
  }

  ghost predicate LeafOvershoots(leaf: Node, t: Table)
    requires Served(leaf, t)
  {
    var x := Server(leaf, t);
    Overshoots(x, leaf.op, LeafKeys(leaf, t))
  }

  /** On text fields and string literals the full scan compares trimmed texts. */
  lemma HoldsOnText(op: Op, values: seq<Value>, kind: FieldType, v: FieldValue, conv: Conversions)
    requires HasOperands(op, |values|) && AllStrings(Operands(op, values)) && kind in {Character, Memo}
    ensures Holds(op, values, kind, v, conv) <==> Satisfies(op, Texts(Operands(op, values)), RTrim(v.text))
  {
    hide Holds, Below, RTrim;
    var ts := seq(|values|, k requires 0 <= k < |values| => LiteralText(values[k], conv));
    HoldsOnTexts(op, values, ts, kind, v, conv);
    var texts := Texts(Operands(op, values));
    assert forall k | 0 <= k < |texts| :: texts[k] == ts[k];
    assert op == In ==> texts == ts;
  }

  /** The entries of record `r` satisfy the leaf just when the record does. */
  lemma KeyAgrees(leaf: Node, t: Table, r: nat)
    requires Served(leaf, t) && t.WellFormed() && Trusted(leaf, t)
    requires 1 <= r <= |t.records|
    ensures var x := Server(leaf, t);
      var v := Column(t, FieldIndex(t.fields, leaf.field))[r - 1];
      LeafHolds(leaf, t, r) <==>
        Satisfies(leaf.op, LeafKeys(leaf, t), PadKey(v, x.keyLength))
  {
    hide FindIndex, Holds, Satisfies, RTrim, PadKey, Clean, Below, LiteralsExact, Keys, Texts, Operands;
    var x, texts := Server(leaf, t), LeafTexts(leaf, t);
    var i := FieldIndex(t.fields, leaf.field);
    var v := t.records[r - 1][i];
    assert Column(t, i)[r - 1] == v.text;
    HoldsOnText(leaf.op, leaf.values, t.fields[i].kind, v, t.conversions);
    ExactAgrees(leaf.op, texts, x.keyLength, v.text);
  }

  /** A scan over a faithful index finds the records whose keys satisfy the operator, and the last entry if
      the seek overshoots. */
  lemma FaithfulBit(x: Index, op: Op, keys: seq<string>, column: seq<string>, r: nat)
    requires HasOperands(op, |keys|) && Faithful(x, column) && 1 <= r <= |column|
    ensures ServedBit(x, op, keys, r) <==>
      || Satisfies(op, keys, PadKey(column[r - 1], x.keyLength))
      || (Overshoots(x, op, keys) && x.entries[|x.entries| - 1].recno == r)
  {
    hide PadKey, Fits, Below, Overshoots;
    assert Listed(x, r);
    var k :| 0 <= k < |x.entries| && x.entries[k].recno == r;
    if op == Ne {
      assert !Overshoots(x, op, keys) by { NoOvershoot(x, op, keys); }
    } else {
      assert Satisfies(op, keys, x.entries[k].key) ==> Visited(x, op, keys, k);
      assert Overshoots(x, op, keys) ==> Visited(x, op, keys, |x.entries| - 1);
    }
  }

  lemma NoOvershoot(x: Index, op: Op, keys: seq<string>)
    requires HasOperands(op, |keys|) && op !in {Ge, Gt, Between}
    ensures !Overshoots(x, op, keys)
  {}

  lemma ServedBits(leaf: Node, t: Table, r: nat)
    requires Served(leaf, t) && t.WellFormed() && Trusted(leaf, t)
    requires 1 <= r <= |t.records|
    ensures var e := Server(leaf, t).entries;
      LeafBit(leaf, t, r) <==> LeafHolds(leaf, t, r) || (LeafOvershoots(leaf, t) && e[|e| - 1].recno == r)
  {
    hide LeafHolds, Satisfies, Overshoots, ServedBit, Faithful, PadKey, LiteralsExact, Fits, LeafKeys, LeafIndex, Server;
    KeyAgrees(leaf, t, r);
    FaithfulBit(Server(leaf, t), leaf.op, LeafKeys(leaf, t), Column(t, FieldIndex(t.fields, leaf.field)), r);
  }

  /** With a faithful index and literals that its keys tell apart, an index answers a leaf as the full scan
      does exactly when the soft seek does not overshoot. */
  lemma ServedExactly(leaf: Node, t: Table)
    requires Served(leaf, t) && t.WellFormed() && Trusted(leaf, t)
    ensures (forall r | 1 <= r <= |t.records| :: LeafBit(leaf, t, r) == LeafHolds(leaf, t, r)) <==> !LeafOvershoots(leaf, t)
  {
    hide LeafBit, LeafHolds, PadKey, LiteralsExact, CleanKey, Fits, Below;
    forall r | 1 <= r <= |t.records|
      ensures var e := Server(leaf, t).entries;
        LeafBit(leaf, t, r) <==> LeafHolds(leaf, t, r) || (LeafOvershoots(leaf, t) && e[|e| - 1].recno == r)
    {
      ServedBits(leaf, t, r);
    }
    if LeafOvershoots(leaf, t) {
      var x := Server(leaf, t);
      var last := x.entries[|x.entries| - 1];
      KeyAgrees(leaf, t, last.recno);
      Trichotomy(last.key, LeafKeys(leaf, t)[0]);
      assert !LeafHolds(leaf, t, last.recno);
    }
  }

  // ----- the whole filter

  /** Every leaf that an index answers is answered right. */
  ghost predicate Sound(n: Node, t: Table)
    requires HasLiterals(n) && t.WellFormed()
  {
    forall k | 0 <= k < |Leaves(n)| && Served(Leaves(n)[k], t) :: Trusted(Leaves(n)[k], t) && !LeafOvershoots(Leaves(n)[k], t)
  }

  lemma SoundKid(n: Node, t: Table, k: nat)
    requires (n.And? || n.Or?) && HasLiterals(n) && t.WellFormed() && Sound(n, t) && k < |n.kids|
    ensures Sound(n.kids[k], t)
  {
    hide Served, Trusted, LeafOvershoots;
    LeavesOfKid(n, k, |n.kids|);
    forall j | 0 <= j < |Leaves(n.kids[k])| && Served(Leaves(n.kids[k])[j], t)
      ensures Trusted(Leaves(n.kids[k])[j], t) && !LeafOvershoots(Leaves(n.kids[k])[j], t)
    {
      assert Leaves(n.kids[k])[j] in Leaves(n);
    }
  }

  lemma {:induction false} LeavesOfKid(n: Node, k: nat, m: nat)
    requires (n.And? || n.Or?) && HasLiterals(n) && k < m <= |n.kids|
    ensures forall l | l in Leaves(n.kids[k]) :: l in LeavesOfKids(n, m)
    decreases m
  {
    if k < m - 1 {
      LeavesOfKid(n, k, m - 1);
    }
  }

  lemma {:induction false} BitsAgree(n: Node, t: Table, r: nat)
    requires HasLiterals(n) && t.WellFormed() && Sound(n, t) && 1 <= r <= |t.records|
    ensures OptimisedBit(n, t, r) <==> NodeHolds(n, t, r)
    decreases n
  {
    hide Trusted, LeafHolds, LeafBit, LeafOvershoots, Served;
    match n
    case Leaf(_, _, _) =>
      assert Leaves(n)[0] == n;
      if Served(n, t) {
        ServedExactly(n, t);
      }
    case And(kids) =>
      forall k | 0 <= k < |kids|
        ensures OptimisedBit(kids[k], t, r) <==> NodeHolds(kids[k], t, r)
      {
        SoundKid(n, t, k);
        BitsAgree(kids[k], t, r);
      }
    case Or(kids) =>
      forall k | 0 <= k < |kids|
        ensures OptimisedBit(kids[k], t, r) <==> NodeHolds(kids[k], t, r)
      {
        SoundKid(n, t, k);
        BitsAgree(kids[k], t, r);
      }
    case Not(child) =>
      assert Leaves(n) == Leaves(child);
      BitsAgree(child, t, r);
  }

  /** The optimised evaluator finds the bitmap of the full scan. */
  lemma OptimisedIsScan(n: Node, t: Table, bm: seq<bool>)
    requires HasLiterals(n) && t.WellFormed() && Sound(n, t)
    ensures IsOptimised(n, t, bm) <==> bm == ScanBitmap(n, t)
  {
    hide OptimisedBit, NodeHolds, Sound;
    forall r | 1 <= r <= |t.records|
      ensures OptimisedBit(n, t, r) <==> NodeHolds(n, t, r)
    {
      BitsAgree(n, t, r);
    }
    assert forall i | 0 <= i < |t.records| :: ScanBitmap(n, t)[i] == NodeHolds(n, t, i + 1);
  }

  const NAME := Field("N", Character, 'C', 1, 0, 1, false, 0, 1, false, 0)

  /** The two evaluators differ on one record under an NTX index: no name is above `M`, yet one is found. */
  method Overshoot() returns (t: Table, leaf: Node)
    ensures leaf == Leaf("N", Gt, [StrValue("M")]) && t.WellFormed() && t.IndexesValid() && |t.records| == 1
    ensures Served(leaf, t) && Trusted(leaf, t) && LeafBit(leaf, t, 1) && !LeafHolds(leaf, t, 1)
  {
    var x := new Index(Ntx, "N", 1, [Entry("A", 1)]);
    t := new Table([NAME], [[FieldValue("A", 0.0, false, false)]], [x], Conversions(_ => "", _ => 0.0));
    leaf := Leaf("N", Gt, [StrValue("M")]);
    OvershootHappens(t, leaf, x);
  }

  lemma OvershootHappens(t: Table, leaf: Node, x: Index)
    requires x.Valid()
    requires x.driver == Ntx && x.expression == "N" && x.keyLength == 1 && x.entries == [Entry("A", 1)]
    requires t.fields == [NAME] && t.records == [[FieldValue("A", 0.0, false, false)]] && t.indexes == [x]
    requires leaf == Leaf("N", Gt, [StrValue("M")])
    ensures t.WellFormed() && Served(leaf, t) && Trusted(leaf, t) && LeafBit(leaf, t, 1) && !LeafHolds(leaf, t, 1)
  {
    assert FieldIndex(t.fields, "N") == 0;
    assert Server(leaf, t) == x;
    assert LeafTexts(leaf, t) == ["M"];
    assert PadKey("M", 1) == "M" == RTrim("M");
    assert LeafKeys(leaf, t) == ["M"];
    assert PadKey("A", 1) == "A";
    assert Listed(x, 1) by { assert x.entries[0].recno == 1; }
    assert Trusted(leaf, t);
    assert LeafOvershoots(leaf, t);
    KeyAgrees(leaf, t, 1);
    ServedBits(leaf, t, 1);
  }
}

/** The two evaluators of filters: the full scan, and the one that answers leaves from indexes. */
module AofEval {
  import opened Text
  import opened Aof
  import opened KeyOrder
  import opened AofIndex
  import opened Dbf

  // ----- tables

  type Record = seq<FieldValue>

  /** Conversions between text and floating-point numbers that the platform supplies. */
  datatype Conversions = Conversions(realText: real -> string, parseReal: string -> real)

  class Table {
    const fields: seq<Field>
    const records: seq<Record>
    const indexes: seq<Index?>
    const conversions: Conversions
    var recno: nat

    constructor (fields: seq<Field>, records: seq<Record>, indexes: seq<Index?>, conversions: Conversions)
      requires forall r | 0 <= r < |records| :: |records[r]| == |fields|
      ensures this.fields == fields && this.records == records && this.indexes == indexes
      ensures this.conversions == conversions && WellFormed()
    {
      this.fields := fields;
      this.records := records;
      this.indexes := indexes;
      this.conversions := conversions;
      recno := 0;
    }

    ghost predicate WellFormed() { forall r | 0 <= r < |records| :: |records[r]| == |fields| }

    method Goto(r: nat)
      requires 1 <= r <= |records|
      modifies this
      ensures recno == r
    {
      recno := r;
    }

    /** The indexes, as objects that a walk may move. */
    ghost function Cursors(): set<Index> { set x: Index | x in indexes }

    ghost predicate IndexesValid()
      reads Cursors()
    {
      forall x | x in Cursors() :: x.Valid()
    }
  }

  // ----- comparing a field with a literal

  function CompareStrings(a: string, b: string): int {
    if Below(a, b) then -1 else if Below(b, a) then 1 else 0
  }

  function CompareReals(a: real, b: real): int {
    if a < b then -1 else if a > b then 1 else 0
  }

  function LiteralText(lit: Value, conv: Conversions): string {
    match lit
    case StrValue(s) => s
    case IntValue(i) => Signed(i)
    case RealValue(r) => conv.realText(r)
  }

  function LiteralNumber(lit: Value, conv: Conversions): real {
    match lit
    case IntValue(i) => i as real
    case RealValue(r) => r
    case StrValue(s) => conv.parseReal(s)
  }

  function LiteralTruth(lit: Value): bool {
    match lit
    case IntValue(i) => i != 0
    case RealValue(r) => r != 0.0
    case StrValue(s) => s != "" && ToUpper(s[0]) in {'T', 'Y', '1'}
  }

  function Compare(kind: FieldType, v: FieldValue, lit: Value, conv: Conversions): int {
    match kind
    case Character | Memo | Varchar | Date | DateTime => CompareStrings(RTrim(v.text), LiteralText(lit, conv))
    case Numeric | Float | Integer | Currency | Double => CompareReals(v.number, LiteralNumber(lit, conv))
    case Logical => if v.truth == LiteralTruth(lit) then 0 else if v.truth then 1 else -1
    case _ => 0
  }

  // ----- the full scan

  function Holds(op: Op, values: seq<Value>, kind: FieldType, v: FieldValue, conv: Conversions): bool
    requires HasOperands(op, |values|)
  {
    match op
    case Eq => Compare(kind, v, values[0], conv) == 0
    case Ne => Compare(kind, v, values[0], conv) != 0
    case Lt => Compare(kind, v, values[0], conv) < 0
    case Le => Compare(kind, v, values[0], conv) <= 0
    case Gt => Compare(kind, v, values[0], conv) > 0
    case Ge => Compare(kind, v, values[0], conv) >= 0
    case Between => Compare(kind, v, values[0], conv) >= 0 && Compare(kind, v, values[1], conv) <= 0
    case In => exists k | 0 <= k < |values| :: Compare(kind, v, values[k], conv) == 0
  }

  /** A leaf on one record; an unknown field never matches. */
  function LeafHolds(leaf: Node, t: Table, r: nat): bool
    requires leaf.Leaf? && HasLiterals(leaf) && t.WellFormed() && 1 <= r <= |t.records|
  {
    var i := FieldIndex(t.fields, leaf.field);
    i < |t.fields| && Holds(leaf.op, leaf.values, t.fields[i].kind, t.records[r - 1][i], t.conversions)
  }

  function NodeHolds(n: Node, t: Table, r: nat): bool
    requires HasLiterals(n) && t.WellFormed() && 1 <= r <= |t.records|
    decreases n
  {
    match n
    case Leaf(_, _, _) => LeafHolds(n, t, r)
    case And(kids) => forall k | 0 <= k < |kids| :: NodeHolds(kids[k], t, r)
    case Or(kids) => exists k | 0 <= k < |kids| :: NodeHolds(kids[k], t, r)
    case Not(child) => !NodeHolds(child, t, r)
  }

  // ----- what a leaf means, type by type

  /** `field op operands`, over numbers. */
  predicate Relates(op: Op, operands: seq<real>, x: real)
    requires HasOperands(op, |operands|)
  {
    match op
    case Eq => x == operands[0]
    case Ne => x != operands[0]
    case Lt => x < operands[0]
    case Le => x <= operands[0]
    case Gt => x > operands[0]
    case Ge => x >= operands[0]
    case Between => operands[0] <= x <= operands[1]
    case In => x in operands
  }

  /** The numbers that literals stand for: an integer for itself, a text for what the platform reads in it. */
  ghost predicate AreNumbers(values: seq<Value>, xs: seq<real>, conv: Conversions) {
    |xs| == |values| && forall k | 0 <= k < |xs| ::
      match values[k]
      case IntValue(i) => xs[k] == i as real
      case RealValue(r) => xs[k] == r
      case StrValue(s) => xs[k] == conv.parseReal(s)
  }

  /** Truth values as 1 and 0: any number but 0 is true, and a text that starts with T, Y or 1. */
  ghost predicate AreTruths(values: seq<Value>, xs: seq<real>) {
    |xs| == |values| && forall k | 0 <= k < |xs| ::
      xs[k] == match values[k]
        case IntValue(i) => if i == 0 then 0.0 else 1.0
        case RealValue(r) => if r == 0.0 then 0.0 else 1.0
        case StrValue(s) => if s != "" && s[0] in {'T', 't', 'Y', 'y', '1'} then 1.0 else 0.0
  }

  /** The texts that literals stand for: an integer for its decimal digits. */
  ghost predicate AreTexts(values: seq<Value>, ts: seq<string>, conv: Conversions) {
    |ts| == |values| && forall k | 0 <= k < |ts| ::
      match values[k]
      case IntValue(i) => ts[k] == if i < 0 then "-" + Decimal(-i) else Decimal(i)
      case RealValue(r) => ts[k] == conv.realText(r)
      case StrValue(s) => ts[k] == s
  }

  /** A number field is compared as a number. */
  lemma HoldsOnNumbers(op: Op, values: seq<Value>, xs: seq<real>, kind: FieldType, v: FieldValue, conv: Conversions)
    requires HasOperands(op, |values|) && AreNumbers(values, xs, conv)
    requires kind in {Numeric, Float, Integer, Currency, Double}
    ensures Holds(op, values, kind, v, conv) <==> Relates(op, xs, v.number)
  {
    forall k | 0 <= k < |xs|
      ensures Compare(kind, v, values[k], conv) == if v.number < xs[k] then -1 else if v.number > xs[k] then 1 else 0
    {}
    if op == In {
      if v.number in xs {
        var k :| 0 <= k < |xs| && xs[k] == v.number;
        assert Compare(kind, v, values[k], conv) == 0;
      }
    }
  }

  /** A logical field is compared as 1 or 0: false is less than true. */
  lemma HoldsOnTruths(op: Op, values: seq<Value>, xs: seq<real>, v: FieldValue, conv: Conversions)
    requires HasOperands(op, |values|) && AreTruths(values, xs)
    ensures Holds(op, values, Logical, v, conv) <==> Relates(op, xs, if v.truth then 1.0 else 0.0)
  {
    var x := if v.truth then 1.0 else 0.0;
    forall k | 0 <= k < |xs|
      ensures Compare(Logical, v, values[k], conv) == if x < xs[k] then -1 else if x > xs[k] then 1 else 0
    {}
    if op == In {
      if x in xs {
        var k :| 0 <= k < |xs| && xs[k] == x;
        assert Compare(Logical, v, values[k], conv) == 0;
      }
    }
  }

  /** A text field is compared as its trimmed text, in byte order. */
  lemma HoldsOnTexts(op: Op, values: seq<Value>, ts: seq<string>, kind: FieldType, v: FieldValue, conv: Conversions)
    requires HasOperands(op, |values|) && AreTexts(values, ts, conv)
    requires kind in {Character, Memo, Varchar, FieldType.Date, DateTime}
    ensures Holds(op, values, kind, v, conv) <==> Satisfies(op, ts, RTrim(v.text))
  {
    hide Below, RTrim;
    var t := RTrim(v.text);
    forall k | 0 <= k < |ts|
      ensures Compare(kind, v, values[k], conv) == CompareStrings(t, ts[k])
      ensures CompareStrings(t, ts[k]) == 0 <==> t == ts[k]
      ensures CompareStrings(t, ts[k]) < 0 <==> Below(t, ts[k])
      ensures CompareStrings(t, ts[k]) > 0 <==> Below(ts[k], t)
    {
      Trichotomy(t, ts[k]);
    }
    if op == In {
      if t in ts {
        var k :| 0 <= k < |ts| && ts[k] == t;
        assert Compare(kind, v, values[k], conv) == 0;
      }
    }
  }

  /** A field of any other type equals every literal. */
  lemma HoldsOnOthers(op: Op, values: seq<Value>, kind: FieldType, v: FieldValue, conv: Conversions)
    requires HasOperands(op, |values|)
    requires kind !in {Numeric, Float, Integer, Currency, Double, Logical}
    requires kind !in {Character, Memo, Varchar, FieldType.Date, DateTime}
    ensures Holds(op, values, kind, v, conv) <==>
      op == Eq || op == Le || op == Ge || op == Between || (op == In && values != [])
  {
    if op == In && values != [] {
      assert Compare(kind, v, values[0], conv) == 0;
    }
  }

  /** A leaf reads the first field of its name, in any case, and is false if there is none. */
  lemma LeafReads(leaf: Node, t: Table, r: nat, i: nat)
    requires leaf.Leaf? && HasLiterals(leaf) && t.WellFormed() && 1 <= r <= |t.records| && i <= |t.fields|
    requires forall k | 0 <= k < i :: !SameLetters(t.fields[k].name, leaf.field)
    requires i < |t.fields| ==> SameLetters(t.fields[i].name, leaf.field)
    ensures LeafHolds(leaf, t, r) <==>
      i < |t.fields| && Holds(leaf.op, leaf.values, t.fields[i].kind, t.records[r - 1][i], t.conversions)
  {
    FirstOfName(t.fields, leaf.field, i);
  }

  /** `evaluate_record`: the filter at the table's current position. */
  function EvaluateRecord(n: Node, t: Table): bool
    requires HasLiterals(n) && t.WellFormed() && 1 <= t.recno <= |t.records|
    reads t
  {
    NodeHolds(n, t, t.recno)
  }

  /** One bit per record. */
  function ScanBitmap(n: Node, t: Table): (bm: seq<bool>)
    requires HasLiterals(n) && t.WellFormed()
    ensures |bm| == |t.records|
  {
    seq(|t.records|, i requires 0 <= i < |t.records| => NodeHolds(n, t, i + 1))
  }

  method Evaluate(n: Node, t: Table) returns (bm: seq<bool>)
    requires HasLiterals(n) && t.WellFormed()
    modifies t
    ensures bm == ScanBitmap(n, t)
  {
    var rc := |t.records|;
    bm := seq(rc, _ => false);
    var r := 1;
    while r <= rc
      invariant 1 <= r <= rc + 1 && |bm| == rc
      invariant forall q | 1 <= q < r :: bm[q - 1] == NodeHolds(n, t, q)
    {
      t.Goto(r);
      bm := bm[r - 1 := EvaluateRecord(n, t)];
      r := r + 1;
    }
  }
}

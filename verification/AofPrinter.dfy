/** The printer of filter expressions. */
module AofPrinter {
  import opened Text
  import opened Aof

  /** How the platform prints a `double`. */
  type RealFormat = real -> string

  // ----- specification

  function OpText(op: Op): string {
    match op
    case Eq => "="
    case Ne => "!="
    case Lt => "<"
    case Le => "<="
    case Gt => ">"
    case Ge => ">="
    case Between => "BETWEEN"
    case In => "IN"
  }

  function ValueText(v: Value, fmt: RealFormat): string {
    match v
    case IntValue(i) => Signed(i)
    case RealValue(r) => fmt(r)
    case StrValue(s) => "'" + (s + "'")
  }

  function ValueList(values: seq<Value>, fmt: RealFormat): string {
    if values == [] then ""
    else if |values| == 1 then ValueText(values[0], fmt)
    else ValueText(values[0], fmt) + (", " + ValueList(values[1..], fmt))
  }

  /** What follows the field name and a space. */
  function LeafText(op: Op, values: seq<Value>, fmt: RealFormat): string
    requires HasLiterals(Leaf("", op, values))
  {
    if op == Between then
      OpText(op) + (" " + (ValueText(values[0], fmt) + (" AND " + ValueText(values[1], fmt))))
    else if op == In then
      OpText(op) + (" (" + (ValueList(values, fmt) + ")"))
    else
      OpText(op) + (" " + ValueText(values[0], fmt))
  }

  function Show(n: Node, fmt: RealFormat): string
    requires HasLiterals(n)
  {
    match n
    case Leaf(field, op, values) => field + (" " + LeafText(op, values, fmt))
    case And(kids) => "(" + (ShowAll(kids, " AND ", fmt) + ")")
    case Or(kids) => "(" + (ShowAll(kids, " OR ", fmt) + ")")
    case Not(child) => "NOT " + Show(child, fmt)
  }

  function ShowAll(kids: seq<Node>, separator: string, fmt: RealFormat): string
    requires forall k | 0 <= k < |kids| :: HasLiterals(kids[k])
  {
    if kids == [] then ""
    else if |kids| == 1 then Show(kids[0], fmt)
    else Show(kids[0], fmt) + (separator + ShowAll(kids[1..], separator, fmt))
  }

  // ----- the printer

  class OutStream {
    var text: string

    constructor ()
      ensures text == ""
    {
      text := "";
    }

    method Put(s: string)
      modifies this
      ensures text == old(text) + s
    {
      text := text + s;
    }
  }

  lemma Assoc<T>(a: seq<T>, b: seq<T>, c: seq<T>)
    ensures (a + b) + c == a + (b + c)
  {}

  method ToStringRec(n: Node, os: OutStream, fmt: RealFormat)
    requires HasLiterals(n)
    modifies os
    ensures os.text == old(os.text) + Show(n, fmt)
    decreases n
  {
    match n
    case Leaf(field, op, values) =>
      os.Put(field);
      os.Put(" ");
      PutLeaf(op, values, os, fmt);
      Assoc(old(os.text) + field, " ", LeafText(op, values, fmt));
      Assoc(old(os.text), field, " " + LeafText(op, values, fmt));
    case And(kids) =>
      hide ShowAll;
      os.Put("(");
      PutAll(kids, " AND ", os, fmt);
      os.Put(")");
      Enclosed(old(os.text), ShowAll(kids, " AND ", fmt));
    case Or(kids) =>
      hide ShowAll;
      os.Put("(");
      PutAll(kids, " OR ", os, fmt);
      os.Put(")");
      Enclosed(old(os.text), ShowAll(kids, " OR ", fmt));
    case Not(child) =>
      os.Put("NOT ");
      ToStringRec(child, os, fmt);
      Assoc(old(os.text), "NOT ", Show(child, fmt));
  }

  lemma Chain(a: string, b: string, c: string, d: string, e: string)
    ensures a + b + c + d + e == a + (b + (c + (d + e)))
  {
    Assoc(a + b + c, d, e);
    Assoc(a + b, c, d + e);
    Assoc(a, b, c + (d + e));
  }

  lemma Enclosed(before: string, inner: string)
    ensures before + "(" + inner + ")" == before + ("(" + (inner + ")"))
  {
    Assoc(before + "(", inner, ")");
    Assoc(before, "(", inner + ")");
  }

  /** The operator and the literals of a leaf. */
  method PutLeaf(op: Op, values: seq<Value>, os: OutStream, fmt: RealFormat)
    requires HasLiterals(Leaf("", op, values))
    modifies os
    ensures os.text == old(os.text) + LeafText(op, values, fmt)
  {
    hide ValueText, ValueList, OpText;
    os.Put(OpText(op));
    if op == Between {
      os.Put(" ");
      os.Put(ValueText(values[0], fmt));
      os.Put(" AND ");
      os.Put(ValueText(values[1], fmt));
      Chain(old(os.text), OpText(op), " ", ValueText(values[0], fmt), " AND " + ValueText(values[1], fmt));
      Assoc(old(os.text) + OpText(op) + " " + ValueText(values[0], fmt), " AND ", ValueText(values[1], fmt));
    } else if op == In {
      os.Put(" (");
      PutValues(values, os, fmt);
      os.Put(")");
      Chain(old(os.text), OpText(op), " (", ValueList(values, fmt), ")");
    } else {
      os.Put(" ");
      os.Put(ValueText(values[0], fmt));
      Assoc(old(os.text) + OpText(op), " ", ValueText(values[0], fmt));
      Assoc(old(os.text), OpText(op), " " + ValueText(values[0], fmt));
    }
  }

  /** The separator still owed before element `i` of `n`. */
  function Owed(i: nat, separator: string, n: nat): string { if 0 < i < n then separator else "" }

  lemma ValueListFrom(values: seq<Value>, i: nat, fmt: RealFormat)
    requires i < |values|
    ensures ValueList(values[i..], fmt)
         == ValueText(values[i], fmt) + (Owed(i + 1, ", ", |values|) + ValueList(values[i + 1..], fmt))
  {
    assert values[i..][1..] == values[i + 1..] && values[i..][0] == values[i];
  }

  method PutValues(values: seq<Value>, os: OutStream, fmt: RealFormat)
    modifies os
    ensures os.text == old(os.text) + ValueList(values, fmt)
  {
    var i := 0;
    assert values[0..] == values;
    while i < |values|
      invariant 0 <= i <= |values|
      invariant os.text + (Owed(i, ", ", |values|) + ValueList(values[i..], fmt)) == old(os.text) + ValueList(values, fmt)
    {
      hide ValueText, ValueList;
      ghost var before := os.text;
      if i > 0 { os.Put(", "); }
      assert os.text == before + Owed(i, ", ", |values|);
      hide Owed;
      os.Put(ValueText(values[i], fmt));
      ValueListFrom(values, i, fmt);
      Shift(before, Owed(i, ", ", |values|), ValueText(values[i], fmt),
            Owed(i + 1, ", ", |values|) + ValueList(values[i + 1..], fmt));
      i := i + 1;
    }
  }

  lemma Shift(before: string, owed: string, item: string, rest: string)
    ensures before + (owed + (item + rest)) == (before + owed + item) + rest
  {
    Assoc(before + owed, item, rest);
    Assoc(before, owed, item + rest);
  }

  lemma ShowAllFrom(kids: seq<Node>, i: nat, separator: string, fmt: RealFormat)
    requires i < |kids| && forall k | 0 <= k < |kids| :: HasLiterals(kids[k])
    ensures ShowAll(kids[i..], separator, fmt)
         == Show(kids[i], fmt) + (Owed(i + 1, separator, |kids|) + ShowAll(kids[i + 1..], separator, fmt))
  {
    hide Show;
    assert kids[i..][1..] == kids[i + 1..] && kids[i..][0] == kids[i];
  }

  /** The kids of a conjunction or disjunction, with the separator between them. */
  method PutAll(kids: seq<Node>, separator: string, os: OutStream, fmt: RealFormat)
    requires forall k | 0 <= k < |kids| :: HasLiterals(kids[k])
    modifies os
    ensures os.text == old(os.text) + ShowAll(kids, separator, fmt)
    decreases kids
  {
    var i := 0;
    assert kids[0..] == kids;
    while i < |kids|
      invariant 0 <= i <= |kids|
      invariant os.text + (Owed(i, separator, |kids|) + ShowAll(kids[i..], separator, fmt))
             == old(os.text) + ShowAll(kids, separator, fmt)
    {
      hide Show, ShowAll, HasLiterals;
      ghost var before := os.text;
      if i > 0 { os.Put(separator); }
      assert os.text == before + Owed(i, separator, |kids|);
      hide Owed;
      ToStringRec(kids[i], os, fmt);
      ShowAllFrom(kids, i, separator, fmt);
      Shift(before, Owed(i, separator, |kids|), Show(kids[i], fmt),
            Owed(i + 1, separator, |kids|) + ShowAll(kids[i + 1..], separator, fmt));
      i := i + 1;
    }
  }

  method ToString(n: Node, fmt: RealFormat) returns (s: string)
    requires HasLiterals(n)
    ensures s == Show(n, fmt)
  {
    var os := new OutStream();
    ToStringRec(n, os, fmt);
    s := os.text;
  }
}

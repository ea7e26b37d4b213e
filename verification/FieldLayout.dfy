/** The field descriptors of a DBF header: where each field lies in a record. */
module FieldLayout {
  import opened Text
  import opened Dbf

  function ClassifyField(raw: char): FieldType {
    match raw
    case 'C' => Character
    case 'N' => Numeric
    case 'F' => Float
    case 'D' => Date
    case 'T' => DateTime
    case 'L' => Logical
    case 'M' => Memo
    case 'I' => Integer
    case 'Y' => Currency
    case 'B' => Double
    case 'V' => Varchar
    case 'Q' => Varbinary
    case '+' => Integer
    case _ => Unknown
  }

  const DESCRIPTOR: nat := 32

  const TERMINATOR: char := 13 as char

  /** A field name is cut at eleven bytes or at the first zero byte. */
  function NameLength(d: seq<Octet>): (n: nat)
    requires |d| == DESCRIPTOR
    ensures n <= 11
  {
    Span(d[..11], 0, OtherThan(NUL))
  }

  /** The descriptor `d` of a field that starts at `offset`. */
  function Descriptor(d: seq<Octet>, offset: nat): Field
    requires |d| == DESCRIPTOR
  {
    var flags := d[18] as int;
    Field(
      d[..NameLength(d)],
      ClassifyField(d[11]),
      d[11],
      d[16] as int,
      d[17] as int,
      offset,
      flags / 4 % 4 != 0,
      Le(d[19..23]),
      if d[23] == NUL then 1 else d[23] as int,
      flags / 2 % 2 != 0,
      0)
  }

  // ----- specification

  /** How many descriptors stand before the terminator or the end of the data. */
  function Count(data: seq<Octet>, pos: nat): nat
    requires pos <= |data|
    decreases |data| - pos
  {
    if pos + DESCRIPTOR <= |data| && data[pos] != TERMINATOR then 1 + Count(data, pos + DESCRIPTOR) else 0
  }

  /** The length of all fields before field `k`. */
  function TotalBefore(data: seq<Octet>, k: nat): nat
    requires DESCRIPTOR * k <= |data|
  {
    if k == 0 then 0 else TotalBefore(data, k - 1) + data[DESCRIPTOR * (k - 1) + 16] as int
  }

  /** The number of nullable fields before field `k`. */
  function NullsBefore(fields: seq<Field>, k: nat): nat
    requires k <= |fields|
  {
    if k == 0 then 0 else NullsBefore(fields, k - 1) + if fields[k - 1].nullable then 1 else 0
  }

  /** Field `k` as its descriptor says, but for the bit in the null flags. */
  function FieldAt(data: seq<Octet>, k: nat): Field
    requires DESCRIPTOR * (k + 1) <= |data|
  {
    Descriptor(data[DESCRIPTOR * k..DESCRIPTOR * (k + 1)], (1 + TotalBefore(data, k)) % UINT16)
  }

  lemma DescriptorParts(d: seq<Octet>, offset: nat)
    requires |d| == DESCRIPTOR
    ensures var f := Descriptor(d, offset);
      f.name == d[..NameLength(d)] && f.length == d[16] as int && f.offset == offset && f.nullBit == 0
  {}

  // ----- the parser

  method ReadName(d: seq<Octet>) returns (name: string)
    requires |d| == DESCRIPTOR
    ensures name == d[..NameLength(d)]
  {
    var n := 0;
    while n < 11 && d[n] != NUL
      invariant 0 <= n <= 11 && forall k | 0 <= k < n :: d[k] != NUL
    {
      n := n + 1;
    }
    SpanIs(d[..11], 0, n, OtherThan(NUL));
    name := d[..n];
  }

  /** `parse_dbf_fields` */
  method ParseFields(data: seq<Octet>) returns (out: seq<Field>)
    ensures Parsed(data, out)
  {
    hide NameLength, Descriptor, Count;
    out := [];
    var offset, pos := 1, 0;
    while pos + DESCRIPTOR <= |data|
      invariant pos == DESCRIPTOR * |out| && pos <= |data|
      invariant |out| + Count(data, pos) == Count(data, 0)
      invariant offset == (1 + TotalBefore(data, |out|)) % UINT16
      invariant forall k | 0 <= k < |out| :: out[k] == FieldAt(data, k) && out[k].nullBit == 0
    {
      CountStep(data, pos);
      if data[pos] == TERMINATOR { break; }
      var d := data[pos..pos + DESCRIPTOR];
      var name := ReadName(d);
      DescriptorParts(d, offset);
      var f := Descriptor(d, offset).(name := name);
      assert f == Descriptor(d, offset) == FieldAt(data, |out|);
      offset := (offset + f.length) % UINT16;
      out := out + [f];
      pos := pos + DESCRIPTOR;
    }
    CountStep(data, pos);
    out := AssignNullBits(out);
  }

  lemma CountStep(data: seq<Octet>, pos: nat)
    requires pos <= |data|
    ensures Count(data, pos) ==
      if pos + DESCRIPTOR <= |data| && data[pos] != TERMINATOR then 1 + Count(data, pos + DESCRIPTOR) else 0
  {}

  /** Gives the nullable fields their bits in declaration order. */
  method AssignNullBits(fields: seq<Field>) returns (out: seq<Field>)
    requires forall k | 0 <= k < |fields| :: fields[k].nullBit == 0
    ensures |out| == |fields| && forall k | 0 <= k < |out| :: out[k].(nullBit := 0) == fields[k]
    ensures forall k | 0 <= k < |out| ::
      out[k].nullBit == if out[k].nullable then NullsBefore(out, k) % UINT16 else 0
  {
    out := fields;
    var nb := 0;
    for k := 0 to |out|
      invariant |out| == |fields| && nb == NullsBefore(fields, k) % UINT16
      invariant forall j | 0 <= j < |out| :: out[j].(nullBit := 0) == fields[j]
      invariant forall j | 0 <= j < |out| ::
        out[j].nullBit == if j < k && out[j].nullable then NullsBefore(fields, j) % UINT16 else 0
    {
      if out[k].nullable {
        out := out[k := out[k].(nullBit := nb)];
        nb := (nb + 1) % UINT16;
      }
    }
    forall k | 0 <= k < |out|
      ensures NullsBefore(out, k) == NullsBefore(fields, k)
    {
      SameNulls(fields, out, k);
    }
  }

  lemma {:induction false} SameNulls(a: seq<Field>, b: seq<Field>, k: nat)
    requires |a| == |b| && k <= |a| && forall j | 0 <= j < |a| :: a[j].nullable == b[j].nullable
    ensures NullsBefore(a, k) == NullsBefore(b, k)
  {
    if k > 0 {
      SameNulls(a, b, k - 1);
    }
  }

  // ----- layouts

  /** What `ParseFields` returns. */
  ghost predicate Parsed(data: seq<Octet>, fields: seq<Field>) {
    && |fields| == Count(data, 0) && DESCRIPTOR * |fields| <= |data|
    && (forall k | 0 <= k < |fields| :: fields[k].(nullBit := 0) == FieldAt(data, k))
    && (forall k | 0 <= k < |fields| ::
          fields[k].nullBit == if fields[k].nullable then NullsBefore(fields, k) % UINT16 else 0)
  }

  /** The fields lie in the record behind the deletion byte, and none overlaps another. */
  ghost predicate Laid(fields: seq<Field>, recordSize: nat) {
    && (forall i | 0 <= i < |fields| :: 1 <= fields[i].offset && fields[i].offset + fields[i].length <= recordSize)
    && (forall i, j | 0 <= i < j < |fields| :: fields[i].offset + fields[i].length <= fields[j].offset)
  }

  lemma {:induction false} TotalGrows(data: seq<Octet>, i: nat, j: nat)
    requires i <= j && DESCRIPTOR * j <= |data|
    ensures TotalBefore(data, i) <= TotalBefore(data, j)
  {
    if i < j {
      TotalGrows(data, i, j - 1);
    }
  }

  // ----- what the bytes of a descriptor mean

  /** The type of a parsed field is what the letter in byte 11 says. */
  lemma KindMeans(data: seq<Octet>, fields: seq<Field>, k: nat)
    requires Parsed(data, fields) && k < |fields|
    ensures var c, kind := data[DESCRIPTOR * k + 11], fields[k].kind;
      && fields[k].rawType == c
      && (kind == Character <==> c == 'C') && (kind == Numeric <==> c == 'N') && (kind == Float <==> c == 'F')
      && (kind == FieldType.Date <==> c == 'D') && (kind == DateTime <==> c == 'T') && (kind == Logical <==> c == 'L')
      && (kind == Memo <==> c == 'M') && (kind == Integer <==> c == 'I' || c == '+')
      && (kind == Currency <==> c == 'Y') && (kind == Double <==> c == 'B')
      && (kind == Varchar <==> c == 'V') && (kind == Varbinary <==> c == 'Q')
      && (kind == Unknown <==> c !in {'C', 'N', 'F', 'D', 'T', 'L', 'M', 'I', '+', 'Y', 'B', 'V', 'Q'})
  {
    DescriptorBytes(data, fields, k);
  }

  /** A parsed field as its descriptor says, but for the null bit. */
  lemma DescriptorBytes(data: seq<Octet>, fields: seq<Field>, k: nat)
    requires Parsed(data, fields) && k < |fields|
    ensures var d, f := data[DESCRIPTOR * k..DESCRIPTOR * (k + 1)], fields[k];
      && (forall i | 0 <= i < DESCRIPTOR :: d[i] == data[DESCRIPTOR * k + i])
      && f == Descriptor(d, f.offset).(nullBit := f.nullBit)
  {
    hide Descriptor;
    var d := data[DESCRIPTOR * k..DESCRIPTOR * (k + 1)];
    var f, g := fields[k], FieldAt(data, k);
    assert f.(nullBit := 0) == g;
    DescriptorParts(d, g.offset);
    DescriptorParts(d, (1 + TotalBefore(data, k)) % UINT16);
    assert f == g.(nullBit := f.nullBit);
  }

  /** The other attributes: decimals in byte 17, flags in byte 18, the next number of an autoincrement in
      bytes 19 to 22 and its step in byte 23, where 0 stands for 1. */
  lemma AttributesMean(data: seq<Octet>, fields: seq<Field>, k: nat, high: nat, b3: nat, b2: nat, b1: nat, b0: nat)
    requires Parsed(data, fields) && k < |fields|
    requires b3 <= 1 && b2 <= 1 && b1 <= 1 && b0 <= 1
    requires data[DESCRIPTOR * k + 18] as int == 16 * high + 8 * b3 + 4 * b2 + 2 * b1 + b0
    ensures var p, f := DESCRIPTOR * k, fields[k];
      && f.length == data[p + 16] as int && f.decimals == data[p + 17] as int
      && (f.nullable <==> b1 == 1) && (f.autoinc <==> b2 == 1 || b3 == 1)
      && f.autoincNext == data[p + 19] as int + 256 * data[p + 20] as int + 65536 * data[p + 21] as int
           + 16777216 * data[p + 22] as int
      && f.autoincStep == if data[p + 23] as int == 0 then 1 else data[p + 23] as int
  {
    hide NameLength, ClassifyField, FieldAt, Count;
    DescriptorBytes(data, fields, k);
    var d := data[DESCRIPTOR * k..DESCRIPTOR * (k + 1)];
    FourBytes(d[19..23]);
    assert d[19..23][0] == d[19] && d[19..23][1] == d[20] && d[19..23][2] == d[21] && d[19..23][3] == d[22];
    FlagBits(d[18] as int, high, b3, b2, b1, b0);
  }

  lemma FourBytes(bs: seq<Octet>)
    requires |bs| == 4
    ensures Le(bs) == bs[0] as int + 256 * bs[1] as int + 65536 * bs[2] as int + 16777216 * bs[3] as int
  {
    assert bs[1..][1..] == bs[2..] && bs[2..][1..] == bs[3..] && bs[3..][1..] == [];
    assert Le(bs[2..]) == bs[2] as int + 256 * Le(bs[3..]) && Le(bs[3..]) == bs[3] as int;
  }

  lemma FlagBits(flags: nat, high: nat, b3: nat, b2: nat, b1: nat, b0: nat)
    requires b3 <= 1 && b2 <= 1 && b1 <= 1 && b0 <= 1 && flags == 16 * high + 8 * b3 + 4 * b2 + 2 * b1 + b0
    ensures flags / 2 % 2 == b1 && flags / 4 % 4 == 2 * b3 + b2
  {
    assert flags / 2 == 8 * high + 4 * b3 + 2 * b2 + b1;
    assert flags / 4 == 4 * high + 2 * b3 + b2;
  }

  /** The name is the longest prefix of at most eleven bytes without a zero byte. */
  lemma NameMeans(data: seq<Octet>, fields: seq<Field>, k: nat)
    requires Parsed(data, fields) && k < |fields|
    ensures var p, n := DESCRIPTOR * k, |fields[k].name|;
      && n <= 11 && fields[k].name == data[p..p + n] && (forall i | p <= i < p + n :: data[i] as int != 0)
      && (n == 11 || data[p + n] as int == 0)
  {
    hide ClassifyField, FieldAt, Count;
    DescriptorBytes(data, fields, k);
    var d := data[DESCRIPTOR * k..DESCRIPTOR * (k + 1)];
    var n := NameLength(d);
    assert forall i | 0 <= i < 11 :: d[..11][i] == d[i];
    assert fields[k].name == d[..n] == data[DESCRIPTOR * k..DESCRIPTOR * k + n];
    assert forall i | 0 <= i < n :: d[i] != NUL;
    assert forall i | DESCRIPTOR * k <= i < DESCRIPTOR * k + n :: data[i] == d[i - DESCRIPTOR * k];
  }

  /** What the layout needs to know of one parsed field. */
  lemma FieldPlace(data: seq<Octet>, fields: seq<Field>, k: nat)
    requires Parsed(data, fields) && k < |fields|
    ensures fields[k].offset == (1 + TotalBefore(data, k)) % UINT16
    ensures TotalBefore(data, k + 1) == TotalBefore(data, k) + fields[k].length
  {
    hide NameLength, ClassifyField;
    assert fields[k].(nullBit := 0).offset == fields[k].offset;
    assert fields[k].(nullBit := 0).length == fields[k].length;
  }

  /** The fields are contiguous from offset 1 exactly when the last one starts within 16 bits. */
  lemma ContiguousExactly(data: seq<Octet>, fields: seq<Field>)
    requires Parsed(data, fields) && fields != []
    ensures (forall k | 0 <= k < |fields| :: fields[k].offset == 1 + TotalBefore(data, k)) <==>
      1 + TotalBefore(data, |fields| - 1) < UINT16
  {
    hide FieldAt, TotalBefore;
    forall k | 0 <= k < |fields|
      ensures fields[k].offset == (1 + TotalBefore(data, k)) % UINT16
      ensures TotalBefore(data, k) <= TotalBefore(data, |fields| - 1)
    {
      FieldPlace(data, fields, k);
      TotalGrows(data, k, |fields| - 1);
    }
    if forall k | 0 <= k < |fields| :: fields[k].offset == 1 + TotalBefore(data, k) {
      assert fields[|fields| - 1].offset < UINT16;
    }
  }

  /** Descriptors whose lengths fit the record give disjoint fields. */
  lemma ParsedIsLaid(data: seq<Octet>, fields: seq<Field>, recordSize: nat)
    requires Parsed(data, fields) && 1 + TotalBefore(data, |fields|) <= recordSize < UINT16
    ensures Laid(fields, recordSize)
  {
    hide FieldAt, TotalBefore;
    if fields != [] {
      TotalGrows(data, |fields| - 1, |fields|);
      ContiguousExactly(data, fields);
      forall i | 0 <= i < |fields|
        ensures fields[i].offset + fields[i].length == 1 + TotalBefore(data, i + 1)
        ensures TotalBefore(data, i + 1) <= TotalBefore(data, |fields|)
      {
        FieldPlace(data, fields, i);
        TotalGrows(data, i + 1, |fields|);
      }
      forall i, j | 0 <= i < j < |fields|
        ensures fields[i].offset + fields[i].length <= fields[j].offset
      {
        TotalGrows(data, i + 1, j);
      }
    }
  }

  // ----- null bits

  lemma {:induction false} NullsGrow(fields: seq<Field>, i: nat, j: nat)
    requires i <= j <= |fields|
    ensures NullsBefore(fields, i) <= NullsBefore(fields, j)
    ensures i < j && fields[i].nullable ==> NullsBefore(fields, i) < NullsBefore(fields, j)
  {
    if i < j {
      NullsGrow(fields, i, j - 1);
    }
  }

  /** Each bit below the number of nullable fields belongs to one of them. */
  lemma {:induction false} NullBitOwner(fields: seq<Field>, n: nat, b: nat) returns (k: nat)
    requires n <= |fields| && b < NullsBefore(fields, n)
    ensures k < n && fields[k].nullable && NullsBefore(fields, k) == b
  {
    if fields[n - 1].nullable && b == NullsBefore(fields, n - 1) {
      k := n - 1;
    } else {
      k := NullBitOwner(fields, n - 1, b);
    }
  }

  ghost predicate OwnsBit(fields: seq<Field>, b: nat) {
    exists k :: 0 <= k < |fields| && fields[k].nullable && fields[k].nullBit == b
  }

  /** The null bits of the nullable fields are exactly 0, 1, 2, ... in declaration order. */
  lemma NullBitsInOrder(data: seq<Octet>, fields: seq<Field>)
    requires Parsed(data, fields) && NullsBefore(fields, |fields|) <= UINT16
    ensures forall i, j | 0 <= i < j < |fields| && fields[i].nullable && fields[j].nullable ::
      fields[i].nullBit < fields[j].nullBit
    ensures forall b | 0 <= b < NullsBefore(fields, |fields|) :: OwnsBit(fields, b)
    ensures forall k | 0 <= k < |fields| && fields[k].nullable :: fields[k].nullBit < NullsBefore(fields, |fields|)
  {
    hide FieldAt, Count, NullsBefore;
    forall k | 0 <= k < |fields| && fields[k].nullable
      ensures fields[k].nullBit == NullsBefore(fields, k) < NullsBefore(fields, |fields|)
    {
      NullsGrow(fields, k, |fields|);
    }
    forall i, j | 0 <= i < j < |fields| && fields[i].nullable && fields[j].nullable
      ensures fields[i].nullBit < fields[j].nullBit
    {
      NullsGrow(fields, i, j);
    }
    forall b | 0 <= b < NullsBefore(fields, |fields|)
      ensures OwnsBit(fields, b)
    {
      var k := NullBitOwner(fields, |fields|, b);
    }
  }
}

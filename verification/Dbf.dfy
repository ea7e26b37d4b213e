/** Types and values of fields, shared by the record layer and the filters. */
module Dbf {
  import opened Text

  /** Codes 0x00 to 0xFF: a byte of a file, as the C++ source keeps it in a `char`. */
  type Octet = c: char | c as int < 256 witness ' '

  const UINT16: nat := 0x1_0000

  const UINT32: nat := 0x1_0000_0000

  const UINT64: nat := 0x1_0000_0000_0000_0000

  const NUL: Octet := 0 as char

  datatype FieldType =
    | Character | Numeric | Float | Date | DateTime | Logical | Memo | Integer | Currency | Double
    | Varchar | Varbinary | ShortInt | Binary | CiCharacter | AutoInc | Time | AdtDate | AdtTimestamp
    | AdtMoney | RowVersion | ModTime | Unknown

  datatype Field = Field(
    name: string,
    kind: FieldType,
    rawType: Octet,
    length: nat,
    decimals: nat,
    offset: nat,
    autoinc: bool,
    autoincNext: nat,
    autoincStep: nat,
    nullable: bool,
    nullBit: nat)

  datatype FieldValue = FieldValue(text: string, number: real, truth: bool, isNull: bool)

  /** The position of a field, compared without regard to case; `|fields|` if there is none. */
  function FieldIndex(fields: seq<Field>, name: string): (i: nat)
    ensures i <= |fields|
  {
    if fields == [] then 0
    else if Upper(fields[0].name) == Upper(name) then 0
    else 1 + FieldIndex(fields[1..], name)
  }

  /** The only position with no field of the name before it. */
  lemma {:induction false} FirstOfName(fields: seq<Field>, name: string, i: nat)
    requires i <= |fields| && forall k | 0 <= k < i :: !SameLetters(fields[k].name, name)
    requires i < |fields| ==> SameLetters(fields[i].name, name)
    ensures FieldIndex(fields, name) == i
  {
    if fields != [] {
      UpperFoldsCase(fields[0].name, name);
      if i > 0 {
        FirstOfName(fields[1..], name, i - 1);
      }
    }
  }

  function TextValue(s: string): FieldValue { FieldValue(s, 0.0, false, false) }

  const NULL_VALUE := FieldValue("", 0.0, false, true)

  // ----- little-endian integers

  function Power256(n: nat): (p: nat)
    ensures p > 0
  {
    if n == 0 then 1 else 256 * Power256(n - 1)
  }

  function Le(bs: seq<Octet>): (v: nat)
    ensures v < Power256(|bs|)
  {
    if bs == [] then 0 else bs[0] as int + 256 * Le(bs[1..])
  }

  function LeBytes(v: nat, n: nat): (bs: seq<Octet>)
    ensures |bs| == n
  {
    if n == 0 then [] else [(v % 256) as char] + LeBytes(v / 256, n - 1)
  }

  lemma {:induction false} LeRoundTrip(v: nat, n: nat)
    requires v < Power256(n)
    ensures Le(LeBytes(v, n)) == v
  {
    if n > 0 {
      LeRoundTrip(v / 256, n - 1);
    }
  }

  /** Two's complement of a number with `modulus` values. */
  function ToUnsigned(v: int, modulus: nat): (u: nat)
    requires modulus > 0
    ensures u < modulus
  {
    v % modulus
  }

  function ToSigned(u: nat, modulus: nat): int
    requires u < modulus
  {
    if 2 * u >= modulus then u - modulus else u
  }

  lemma TwosComplement(v: int, modulus: nat)
    requires modulus == UINT16 || modulus == UINT32 || modulus == UINT64
    requires 0 <= 2 * v + modulus && 2 * v < modulus
    ensures ToSigned(ToUnsigned(v, modulus), modulus) == v
  {
    if modulus == UINT16 {
      assert v % 0x1_0000 == if v < 0 then v + 0x1_0000 else v;
    } else if modulus == UINT32 {
      assert v % 0x1_0000_0000 == if v < 0 then v + 0x1_0000_0000 else v;
    } else {
      assert v % 0x1_0000_0000_0000_0000 == if v < 0 then v + 0x1_0000_0000_0000_0000 else v;
    }
  }
}

/** Reading and writing the fields of one record buffer in place. */
module Record {
  import opened Text
  import opened Dbf
  import opened Calendar
  import opened DateText

  type Bytes = seq<Octet>

  /** What the platform does with floating-point numbers: `strtod`, the formats `%*.*f`, `%.*f` and `%.17g`,
      and the eight bytes of a `double`.  A `double` is modelled by the number it stands for. */
  datatype Platform = Platform(
    strtod: string -> real,
    padded: (nat, nat, real) -> Bytes,
    fixedPoint: (nat, real) -> string,
    general: real -> string,
    toBits: real -> nat,
    ofBits: nat -> real)

  // ----- what is written

  /** `rec` with `bytes` in place of what stands at `at`. */
  function Put(rec: Bytes, at: nat, bytes: Bytes): (r: Bytes)
    requires at + |bytes| <= |rec|
    ensures |r| == |rec|
  {
    rec[..at] + bytes + rec[at + |bytes|..]
  }

  function Slot(rec: Bytes, f: Field): (s: Bytes)
    requires f.offset + f.length <= |rec|
    ensures |s| == f.length
  {
    rec[f.offset..f.offset + f.length]
  }

  datatype Outcome = Done | PastBuffer | BadNumber

  /** The bytes an operation puts at the start of its field. */
  datatype Payload = Payload(bytes: Bytes) | Unreadable

  function Padding(kind: FieldType): Octet { if kind == Varchar || kind == Varbinary then NUL else ' ' }

  /** A text cut or padded to `n` bytes. */
  function Sized(value: Bytes, n: nat, pad: Octet): (s: Bytes)
    ensures |s| == n
  {
    if |value| <= n then value + Repeat(pad, n - |value|) else value[..n]
  }

  function Fitted(f: Field, value: Bytes): (s: Bytes)
    ensures |s| == f.length
  {
    Sized(value, f.length, Padding(f.kind))
  }

  function TextPayload(f: Field, value: Bytes): (p: Payload)
    ensures p.Payload? ==> |p.bytes| <= f.length
  {
    if f.kind == AdtDate && f.length >= 4 && |value| >= 8 then
      match ReadDate(value)
      case None => Unreadable
      case Some(t) => Payload(LeBytes(YmdToJdn(t.year, t.month, t.day), 4))
    else if f.kind == AdtTimestamp && f.length >= 8 && |value| >= 14 then
      var d, t := ReadDate(value), ReadTime(value[8..]);
      if d.None? || t.None? then Unreadable
      else Payload(LeBytes(YmdToJdn(d.value.year, d.value.month, d.value.day), 4) + LeBytes(ToUnsigned(t.value, UINT32), 4))
    else Payload(Fitted(f, value))
  }

  /** The bytes of a number of the type; 0 if the type stores numbers as text. */
  function Width(kind: FieldType): nat {
    match kind
    case ShortInt => 2
    case Integer | AutoInc | Time => 4
    case Currency | AdtMoney | Double => 8
    case _ => 0
  }

  /** The field holds its numbers in binary. */
  predicate HoldsBinary(f: Field) { 0 < Width(f.kind) <= f.length }

  /** The whole numbers that a binary type can hold. */
  predicate Representable(kind: FieldType, n: int) {
    match kind
    case Integer => -0x8000_0000 <= n < 0x8000_0000
    case ShortInt => -0x8000 <= n < 0x8000
    case Currency | AdtMoney => -0x8000_0000_0000_0000 <= n < 0x8000_0000_0000_0000
    case AutoInc | Time => 0 <= n < UINT32
    case _ => true
  }

  /** `static_cast` from `double`: toward zero. */
  function Truncate(x: real): int { if x >= 0.0 then x.Floor else -((-x).Floor) }

  /** The whole number that a binary type stores: money counts ten-thousandths. */
  function Stored(kind: FieldType, value: real): int {
    if kind == Currency || kind == AdtMoney then Truncate(value * 10000.0) else Truncate(value)
  }

  /** The source's cast of the number is defined, and its 64-byte text buffer is not overrun. */
  predicate Writable(f: Field, value: real) {
    if HoldsBinary(f) then Representable(f.kind, Stored(f.kind, value)) else f.length <= 64
  }

  /** What `snprintf` leaves in a buffer of 64 bytes. */
  function Buffered(text: Bytes): Bytes { if |text| >= 64 then text[..63] + [NUL] else text }

  function NumberPayload(f: Field, value: real, plat: Platform): (p: Payload)
    ensures p.Payload? && |p.bytes| <= f.length
  {
    if !HoldsBinary(f) then Payload(Sized(Buffered(plat.padded(f.length, f.decimals, value)), f.length, ' '))
    else if f.kind == Double then Payload(LeBytes(ToUnsigned(plat.toBits(value), UINT64), 8))
    else Payload(LeBytes(ToUnsigned(Stored(f.kind, value), Power256(Width(f.kind))), Width(f.kind)))
  }

  /** The buffer after an operation on field `f`. */
  function Written(rec: Bytes, f: Field, p: Payload): (r: Bytes)
    requires p.Payload? ==> |p.bytes| <= f.length
    ensures |r| == |rec|
  {
    if f.offset + f.length > |rec| || p.Unreadable? then rec else Put(rec, f.offset, p.bytes)
  }

  function OutcomeOf(rec: Bytes, f: Field, p: Payload): Outcome {
    if f.offset + f.length > |rec| then PastBuffer else if p.Unreadable? then BadNumber else Done
  }

  /** `encode_field_logical` writes one byte, whatever the length of the field. */
  function LogicalWritten(rec: Bytes, f: Field, truth: bool): (r: Bytes)
    requires HasByte(f, rec)
    ensures |r| == |rec|
  {
    if f.offset + f.length > |rec| then rec else Put(rec, f.offset, [if truth then 'T' else 'F'])
  }

  /** The byte of a logical field lies in the buffer, even if the field is empty. */
  predicate HasByte(f: Field, rec: Bytes) { f.offset + f.length <= |rec| ==> f.offset < |rec| }

  /** A logical field is written without a trace outside it exactly when it is not empty. */
  lemma LogicalStaysInside(rec: Bytes, f: Field)
    requires f.offset + f.length <= |rec| && f.offset < |rec|
    ensures f.length >= 1 <==> forall truth ::
      var r := LogicalWritten(rec, f, truth);
      r[..f.offset] == rec[..f.offset] && r[f.offset + f.length..] == rec[f.offset + f.length..]
  {
    var yes, no := LogicalWritten(rec, f, true), LogicalWritten(rec, f, false);
    assert yes[f.offset..][0] == 'T' && no[f.offset..][0] == 'F';
    forall truth | f.length >= 1
      ensures LogicalWritten(rec, f, truth)[..f.offset] == rec[..f.offset]
      ensures LogicalWritten(rec, f, truth)[f.offset + f.length..] == rec[f.offset + f.length..]
    {
    }
  }

  function DeletedWritten(rec: Bytes, deleted: bool): (r: Bytes)
    ensures |r| == |rec|
  {
    if rec == [] then rec else Put(rec, 0, [if deleted then '*' else ' '])
  }

  predicate IsDeleted(rec: Bytes) { rec != [] && rec[0] == '*' }

  // ----- the writers

  /** `memcpy` into the buffer. */
  method Copy(rec: array<Octet>, at: nat, bytes: Bytes)
    requires at + |bytes| <= rec.Length
    modifies rec
    ensures rec[..] == Put(old(rec[..]), at, bytes)
  {
    for i := 0 to |bytes|
      invariant forall k | 0 <= k < rec.Length ::
        rec[k] == if at <= k < at + i then bytes[k - at] else old(rec[k])
    {
      rec[at + i] := bytes[i];
    }
  }

  /** Writes the low `n` bytes of `v`, lowest first. */
  method WriteLe(rec: array<Octet>, at: nat, v: nat, n: nat)
    requires at + n <= rec.Length
    modifies rec
    ensures rec[..] == Put(old(rec[..]), at, LeBytes(v, n))
  {
    ghost var bytes := LeBytes(v, n);
    var u := v;
    for i := 0 to n
      invariant LeBytes(u, n - i) == bytes[i..]
      invariant forall k | 0 <= k < rec.Length ::
        rec[k] == if at <= k < at + i then bytes[k - at] else old(rec[k])
    {
      assert bytes[i] == bytes[i..][0] && bytes[i..][1..] == bytes[i + 1..];
      rec[at + i] := (u % 256) as char;
      u := u / 256;
    }
  }

  method EncodeFieldString(f: Field, rec: array<Octet>, value: Bytes) returns (r: Outcome)
    modifies rec
    ensures r == OutcomeOf(old(rec[..]), f, TextPayload(f, value))
    ensures rec[..] == Written(old(rec[..]), f, TextPayload(f, value))
  {
    hide ReadDate, ReadTime, LeBytes, YmdToJdn, Put;
    if f.offset + f.length > rec.Length { return PastBuffer; }
    if f.kind == AdtDate && f.length >= 4 && |value| >= 8 {
      var d := ReadDate(value);
      if d.None? { return BadNumber; }
      WriteLe(rec, f.offset, YmdToJdn(d.value.year, d.value.month, d.value.day), 4);
      return Done;
    }
    if f.kind == AdtTimestamp && f.length >= 8 && |value| >= 14 {
      var d, t := ReadDate(value), ReadTime(value[8..]);
      if d.None? || t.None? { return BadNumber; }
      var jdn, ms := YmdToJdn(d.value.year, d.value.month, d.value.day), ToUnsigned(t.value, UINT32);
      WriteLe(rec, f.offset, jdn, 4);
      WriteLe(rec, f.offset + 4, ms, 4);
      PutTwice(old(rec[..]), f.offset, LeBytes(jdn, 4), LeBytes(ms, 4));
      return Done;
    }
    CopySized(rec, f.offset, value, f.length, Padding(f.kind));
    return Done;
  }

  lemma PutTwice(rec: Bytes, at: nat, a: Bytes, b: Bytes)
    requires at + |a| + |b| <= |rec|
    ensures Put(Put(rec, at, a), at + |a|, b) == Put(rec, at, a + b)
  {
    var once := Put(rec, at, a);
    assert once[..at + |a|] == rec[..at] + a;
    assert once[at + |a| + |b|..] == rec[at + |a| + |b|..];
  }

  method EncodeFieldDouble(f: Field, rec: array<Octet>, value: real, plat: Platform) returns (r: Outcome)
    requires Writable(f, value)
    modifies rec
    ensures r == OutcomeOf(old(rec[..]), f, NumberPayload(f, value, plat))
    ensures rec[..] == Written(old(rec[..]), f, NumberPayload(f, value, plat))
  {
    hide LeBytes, Put, Truncate, Sized;
    if f.offset + f.length > rec.Length { return PastBuffer; }
    Powers();
    match f.kind {
      case Integer =>
        if f.length >= 4 {
          WriteLe(rec, f.offset, ToUnsigned(Truncate(value), UINT32), 4);
          return Done;
        }
      case Currency | AdtMoney =>
        if f.length >= 8 {
          WriteLe(rec, f.offset, ToUnsigned(Truncate(value * 10000.0), UINT64), 8);
          return Done;
        }
      case Double =>
        if f.length >= 8 {
          WriteLe(rec, f.offset, ToUnsigned(plat.toBits(value), UINT64), 8);
          return Done;
        }
      case ShortInt =>
        if f.length >= 2 {
          WriteLe(rec, f.offset, ToUnsigned(Truncate(value), UINT16), 2);
          return Done;
        }
      case AutoInc | Time =>
        if f.length >= 4 {
          WriteLe(rec, f.offset, ToUnsigned(Truncate(value), UINT32), 4);
          return Done;
        }
      case _ =>
    }
    var text := plat.padded(f.length, f.decimals, value);
    CopySized(rec, f.offset, Buffered(text), f.length, ' ');
    return Done;
  }

  lemma Powers()
    ensures Power256(2) == UINT16 && Power256(4) == UINT32 && Power256(8) == UINT64
  {
    assert Power256(1) == 256 && Power256(3) == 256 * Power256(2);
    assert Power256(5) == 256 * Power256(4) && Power256(6) == 256 * Power256(5) && Power256(7) == 256 * Power256(6);
  }

  /** Copies what fits of a text and pads the rest. */
  method CopySized(rec: array<Octet>, at: nat, value: Bytes, length: nat, pad: Octet)
    requires at + length <= rec.Length
    modifies rec
    ensures rec[..] == Put(old(rec[..]), at, Sized(value, length, pad))
  {
    hide Put;
    var n := if |value| < length then |value| else length;
    Copy(rec, at, value[..n]);
    Copy(rec, at + n, Repeat(pad, length - n));
    PutTwice(old(rec[..]), at, value[..n], Repeat(pad, length - n));
    assert value[..n] + Repeat(pad, length - n) == Sized(value, length, pad);
  }

  method EncodeFieldLogical(f: Field, rec: array<Octet>, value: bool) returns (r: Outcome)
    requires HasByte(f, rec[..])
    modifies rec
    ensures r == if f.offset + f.length > rec.Length then PastBuffer else Done
    ensures rec[..] == LogicalWritten(old(rec[..]), f, value)
  {
    if f.offset + f.length > rec.Length { return PastBuffer; }
    rec[f.offset] := if value then 'T' else 'F';
    return Done;
  }

  method SetRecordDeleted(rec: array<Octet>, deleted: bool)
    modifies rec
    ensures rec[..] == DeletedWritten(old(rec[..]), deleted)
  {
    if rec.Length == 0 { return; }
    rec[0] := if deleted then '*' else ' ';
  }

  // ----- what is read

  function Strip(s: Bytes, c: Octet): (t: Bytes)
    ensures t <= s && (t == [] || t[|t| - 1] != c)
    ensures forall k | |t| <= k < |s| :: s[k] == c
  {
    if s != [] && s[|s| - 1] == c then Strip(s[..|s| - 1], c) else s
  }

  /** The only text without a trailing `c` that leaves nothing but `c`. */
  lemma StripIs(s: Bytes, t: Bytes, c: Octet)
    requires t <= s && (t == [] || t[|t| - 1] != c) && forall k | |t| <= k < |s| :: s[k] == c
    ensures Strip(s, c) == t
  {}

  function NumberValue(text: string, n: int): FieldValue { FieldValue(text, n as real, false, false) }

  predicate IsTrue(c: char) { c == 'T' || c == 't' || c == 'Y' || c == 'y' }

  /** `%02u:%02u:%02u.%03u` */
  function ClockText(ms: nat): string {
    ZeroPadded(ms / 3600000, 2) + ":" + ZeroPadded(ms % 3600000 / 60000, 2) + ":" + ZeroPadded(ms % 60000 / 1000, 2)
      + "." + ZeroPadded(ms % 1000, 3)
  }

  /** Day number 0 is the null date. */
  function DateValue(jdn: nat): FieldValue {
    if jdn == 0 then NULL_VALUE else TextValue(DateString(JdnToYmd(jdn)))
  }

  function StampValue(jdn: nat, ms: nat): FieldValue {
    if jdn == 0 && ms == 0 then NULL_VALUE else TextValue(DateString(JdnToYmd(jdn)) + TimeString(ms))
  }

  /** The number of a Numeric field is that of its first 63 bytes. */
  function TextNumber(p: Bytes, plat: Platform): FieldValue {
    FieldValue(Strip(p, ' '), plat.strtod(if |p| > 63 then p[..63] else p), false, false)
  }

  function MoneyValue(raw: int, plat: Platform): FieldValue {
    var money := raw as real / 10000.0;
    FieldValue(plat.fixedPoint(4, money), money, false, false)
  }

  function DoubleValue(decimals: nat, x: real, plat: Platform): FieldValue {
    FieldValue(if decimals > 0 then plat.fixedPoint(decimals, x) else plat.general(x), x, false, false)
  }

  function LogicalValue(c: Octet): FieldValue { FieldValue([c], 0.0, IsTrue(c), false) }

  /** How many bytes a binary type reads; 0 for the other types. */
  function ReadWidth(kind: FieldType): nat {
    match kind
    case AdtDate => 4
    case DateTime | AdtTimestamp | ModTime | RowVersion => 8
    case _ => Width(kind)
  }

  /** The bytes of a binary type, long enough for it. */
  function BinaryValue(f: Field, p: Bytes, plat: Platform): FieldValue
    requires 0 < ReadWidth(f.kind) <= |p|
  {
    var raw := Le(p[..ReadWidth(f.kind)]);
    match f.kind
    case Integer => var n := ToSigned(raw % UINT32, UINT32); NumberValue(Signed(n), n)
    case ShortInt => var n := ToSigned(raw % UINT16, UINT16); NumberValue(Signed(n), n)
    case AutoInc => NumberValue(Decimal(raw), raw)
    case Time => NumberValue(ClockText(raw), raw)
    case Currency | AdtMoney => MoneyValue(ToSigned(raw % UINT64, UINT64), plat)
    case Double => DoubleValue(f.decimals, plat.ofBits(raw), plat)
    case AdtDate => DateValue(raw)
    case DateTime | AdtTimestamp | ModTime => StampValue(Le(p[..4]), Le(p[4..8]))
    case RowVersion => TextValue(Decimal(raw))
  }

  /** What the bytes `p` of a field mean; a field too short for its binary type is read as text. */
  function SlotValue(f: Field, p: Bytes, plat: Platform): FieldValue
    requires |p| == f.length && (f.kind == Logical ==> f.length >= 1)
  {
    if 0 < ReadWidth(f.kind) <= |p| then BinaryValue(f, p, plat) else
      match f.kind
      case Numeric | Float => TextNumber(p, plat)
      case Logical => LogicalValue(p[0])
      case Memo | Binary => TextValue("")
      case _ => TextValue(Strip(p, Padding(f.kind)))
  }

  datatype DecodeResult = Decoded(value: FieldValue) | RangePastBuffer

  function Decoding(f: Field, rec: Bytes, plat: Platform): DecodeResult
    requires f.kind == Logical ==> HasByte(f, rec)
  {
    if f.offset + f.length > |rec| then RangePastBuffer
    else if f.kind == Logical then Decoded(LogicalValue(rec[f.offset]))
    else Decoded(SlotValue(f, Slot(rec, f), plat))
  }

  // ----- the reader

  method StripTail(p: Bytes, c: Octet) returns (s: Bytes)
    ensures s == Strip(p, c)
  {
    var n := |p|;
    while n > 0 && p[n - 1] == c
      invariant 0 <= n <= |p| && forall k | n <= k < |p| :: p[k] == c
    {
      n := n - 1;
    }
    s := p[..n];
    StripIs(p, s, c);
  }

  method ReadLe(p: Bytes, at: nat, n: nat) returns (v: nat)
    requires at + n <= |p|
    ensures v == Le(p[at..at + n])
  {
    v := 0;
    var i := n;
    while i > 0
      invariant 0 <= i <= n && v == Le(p[at + i..at + n])
    {
      i := i - 1;
      assert p[at + i..at + n][1..] == p[at + i + 1..at + n];
      v := p[at + i] as int + 256 * v;
    }
  }

  method DecodeField(f: Field, rec: array<Octet>, plat: Platform) returns (r: DecodeResult)
    requires f.kind == Logical ==> HasByte(f, rec[..])
    ensures r == Decoding(f, rec[..], plat)
  {
    hide Strip, BinaryValue;
    if f.offset + f.length > rec.Length { return RangePastBuffer; }
    if f.kind == Logical { return Decoded(LogicalValue(rec[f.offset])); }
    var p := rec[f.offset..f.offset + f.length];
    if 0 < ReadWidth(f.kind) <= f.length {
      var v := DecodeBinary(f, p, plat);
      return Decoded(v);
    }
    if f.kind.Memo? || f.kind.Binary? { return Decoded(TextValue("")); }
    var s := StripTail(p, Padding(f.kind));
    if f.kind.Numeric? || f.kind.Float? {
      return Decoded(FieldValue(s, plat.strtod(if |p| > 63 then p[..63] else p), false, false));
    }
    return Decoded(TextValue(s));
  }

  method DecodeBinary(f: Field, p: Bytes, plat: Platform) returns (v: FieldValue)
    requires 0 < ReadWidth(f.kind) <= |p|
    ensures v == BinaryValue(f, p, plat)
  {
    hide Le, DateString, TimeString, ClockText, JdnToYmd, Decimal, Signed;
    var raw := ReadLe(p, 0, ReadWidth(f.kind));
    match f.kind {
      case Integer =>
        var n := ToSigned(raw % UINT32, UINT32);
        v := NumberValue(Signed(n), n);
      case ShortInt =>
        var n := ToSigned(raw % UINT16, UINT16);
        v := NumberValue(Signed(n), n);
      case AutoInc => v := NumberValue(Decimal(raw), raw);
      case Time => v := NumberValue(ClockText(raw), raw);
      case Currency | AdtMoney => v := MoneyValue(ToSigned(raw % UINT64, UINT64), plat);
      case Double => v := DoubleValue(f.decimals, plat.ofBits(raw), plat);
      case AdtDate => v := DateValue(raw);
      case DateTime | AdtTimestamp | ModTime =>
        var jdn := ReadLe(p, 0, 4);
        var ms := ReadLe(p, 4, 4);
        v := StampValue(jdn, ms);
      case RowVersion => v := TextValue(Decimal(raw));
    }
  }
}

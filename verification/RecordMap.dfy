/** A record buffer is a map from fields to values, over any run of well-typed writes. */
module RecordMap {
  import opened Text
  import opened Dbf
  import opened Calendar
  import opened DateText
  import opened FieldLayout
  import opened Record

  datatype Op =
    | SetText(field: nat, text: Bytes)
    | SetNumber(field: nat, value: real)
    | SetLogical(field: nat, truth: bool)
    | SetDeleted(deleted: bool)

  ghost predicate IsDateText(text: string) { exists t :: Printable(t) && text == DateString(t) }

  ghost predicate IsStampText(text: string) {
    exists t, ms | 0 <= ms < DAY_MS && ms % 1000 == 0 :: Printable(t) && text == DateString(t) + TimeString(ms)
  }

  /** The types that read back the text they are given. */
  predicate IsText(kind: FieldType) {
    kind.Character? || kind.CiCharacter? || kind.Date? || kind.Unknown? || kind.Varchar? || kind.Varbinary?
  }

  predicate IsNumeric(kind: FieldType) { kind.Numeric? || kind.Float? }

  /** The operation suits the type of its field. */
  ghost predicate Suits(f: Field, op: Op, plat: Platform)
    requires !op.SetDeleted?
  {
    match op
    case SetText(_, text) =>
      || IsText(f.kind) || IsNumeric(f.kind)
      || (f.kind == AdtDate && f.length >= 4 && IsDateText(text))
      || (f.kind == AdtTimestamp && f.length >= 8 && IsStampText(text))
    case SetNumber(_, value) =>
      && Writable(f, value) && (HoldsBinary(f) || IsNumeric(f.kind))
      && (HoldsBinary(f) && f.kind == Double ==> IsDouble(value, plat))
    case SetLogical(_, _) => f.kind == Logical && f.length >= 1
  }

  /** The platform reads the number back from the eight bytes it writes for it. */
  predicate IsDouble(value: real, plat: Platform) { plat.toBits(value) < UINT64 && plat.ofBits(plat.toBits(value)) == value }

  ghost predicate Typed(fields: seq<Field>, op: Op, plat: Platform) {
    op.SetDeleted? || (op.field < |fields| && Suits(fields[op.field], op, plat))
  }

  function PayloadOf(f: Field, op: Op, plat: Platform): (p: Payload)
    requires !op.SetDeleted? && (op.SetLogical? ==> f.length >= 1)
    ensures p.Payload? ==> |p.bytes| <= f.length
  {
    match op
    case SetText(_, text) => TextPayload(f, text)
    case SetNumber(_, value) => NumberPayload(f, value, plat)
    case SetLogical(_, truth) => Payload([if truth then 'T' else 'F'])
  }

  /** The buffer after one write, as the encoders leave it. */
  ghost function Apply(fields: seq<Field>, rec: Bytes, op: Op, plat: Platform): (r: Bytes)
    requires Typed(fields, op, plat)
    ensures |r| == |rec|
  {
    match op
    case SetText(k, text) => Written(rec, fields[k], TextPayload(fields[k], text))
    case SetNumber(k, value) => Written(rec, fields[k], NumberPayload(fields[k], value, plat))
    case SetLogical(k, truth) => LogicalWritten(rec, fields[k], truth)
    case SetDeleted(deleted) => DeletedWritten(rec, deleted)
  }

  lemma ApplyWrites(fields: seq<Field>, rec: Bytes, op: Op, plat: Platform)
    requires Typed(fields, op, plat) && !op.SetDeleted?
    ensures Apply(fields, rec, op, plat) == Written(rec, fields[op.field], PayloadOf(fields[op.field], op, plat))
  {
    hide TextPayload, NumberPayload, Writable, IsDateText, IsStampText;
  }

  ghost function Run(fields: seq<Field>, rec: Bytes, ops: seq<Op>, plat: Platform): (r: Bytes)
    requires forall k | 0 <= k < |ops| :: Typed(fields, ops[k], plat)
    ensures |r| == |rec|
  {
    if ops == [] then rec else Apply(fields, Run(fields, rec, ops[..|ops| - 1], plat), ops[|ops| - 1], plat)
  }

  // ----- the abstract record

  datatype Image = Image(values: map<nat, FieldValue>, deleted: bool)

  /** An empty logical field has no byte of its own. */
  predicate HasMeaning(f: Field) { f.kind == Logical ==> f.length >= 1 }

  ghost function Abs(fields: seq<Field>, rec: Bytes, plat: Platform): Image
    requires Laid(fields, |rec|)
  {
    Image(
      map k: nat | k < |fields| && HasMeaning(fields[k]) :: SlotValue(fields[k], Slot(rec, fields[k]), plat),
      IsDeleted(rec))
  }

  function Cut(text: Bytes, n: nat): Bytes { if |text| > n then text[..n] else text }

  /** What a write means to a reader. */
  function Meaning(f: Field, op: Op, plat: Platform): FieldValue
    requires !op.SetDeleted?
  {
    match op
    case SetText(_, text) =>
      if IsNumeric(f.kind) then TextNumber(Sized(text, f.length, ' '), plat)
      else if f.kind == AdtDate || f.kind == AdtTimestamp then TextValue(text)
      else TextValue(Strip(Cut(text, f.length), Padding(f.kind)))
    case SetNumber(_, value) => NumberMeaning(f, value, plat)
    case SetLogical(_, truth) => FieldValue(if truth then "T" else "F", 0.0, truth, false)
  }

  /** A number is cut to what the type can hold: a whole number, ten-thousandths, or its printed text. */
  function NumberMeaning(f: Field, value: real, plat: Platform): FieldValue {
    var n := Stored(f.kind, value);
    match f.kind
    case Currency | AdtMoney => MoneyValue(n, plat)
    case Double => DoubleValue(f.decimals, value, plat)
    case Time => NumberValue(if n >= 0 then ClockText(n) else "", n)
    case Numeric | Float => TextNumber(Sized(Buffered(plat.padded(f.length, f.decimals, value)), f.length, ' '), plat)
    case _ => NumberValue(Signed(n), n)
  }

  ghost function Step(fields: seq<Field>, m: Image, op: Op, plat: Platform): Image
    requires Typed(fields, op, plat)
  {
    match op
    case SetDeleted(deleted) => m.(deleted := deleted)
    case _ => m.(values := m.values[op.field := Meaning(fields[op.field], op, plat)])
  }

  ghost function Steps(fields: seq<Field>, m: Image, ops: seq<Op>, plat: Platform): Image
    requires forall k | 0 <= k < |ops| :: Typed(fields, ops[k], plat)
  {
    if ops == [] then m else Step(fields, Steps(fields, m, ops[..|ops| - 1], plat), ops[|ops| - 1], plat)
  }

  // ----- one field

  lemma SlotOfWritten(rec: Bytes, f: Field, p: Payload)
    requires f.offset + f.length <= |rec| && p.Payload? && |p.bytes| <= f.length
    ensures Slot(Written(rec, f, p), f) == p.bytes + Slot(rec, f)[|p.bytes|..]
  {}

  lemma SlotUntouched(rec: Bytes, f: Field, g: Field, p: Payload)
    requires f.offset + f.length <= |rec| && p.Payload? ==> |p.bytes| <= f.length
    requires f.offset + f.length <= |rec| && g.offset + g.length <= |rec| && f.offset >= 1
    requires f.offset + f.length <= g.offset || g.offset + g.length <= f.offset
    ensures Slot(Written(rec, f, p), g) == Slot(rec, g) && Written(rec, f, p)[0] == rec[0]
  {}

  lemma FittedMeans(f: Field, text: Bytes)
    ensures Strip(Fitted(f, text), Padding(f.kind)) == Strip(Cut(text, f.length), Padding(f.kind))
  {
    StripIs(Fitted(f, text), Strip(Cut(text, f.length), Padding(f.kind)), Padding(f.kind));
  }

  /** A date encodes to its day number and back to its text; it is never the null date. */
  lemma DateMeans(text: Bytes, rest: Bytes)
    requires IsDateText(text)
    ensures |text| == 8
    ensures var r := ReadDate(text + rest);
      r.Some? && var jdn := YmdToJdn(r.value.year, r.value.month, r.value.day);
      0 < jdn < UINT32 && DateValue(jdn) == TextValue(text) && DateString(JdnToYmd(jdn)) == text
  {
    hide DateString, YmdToJdn, DayNumber, ReadDate, Stoi, JdnToYmd, ValidDate;
    var t :| Printable(t) && text == DateString(t);
    DateBack(t, rest);
    PrintableInRange(t);
    PrintableIsValid(t);
    YmdRoundTrip(t);
  }

  lemma PrintableIsValid(t: Date)
    requires Printable(t)
    ensures ValidDate(t)
  {}

  lemma StampMeans(text: Bytes)
    requires IsStampText(text)
    ensures |text| == 14
    ensures var d, r := ReadDate(text), ReadTime(text[8..]);
      d.Some? && r.Some? && 0 <= r.value < UINT32 && var jdn := YmdToJdn(d.value.year, d.value.month, d.value.day);
      0 < jdn < UINT32 && StampValue(jdn, r.value) == TextValue(text)
  {
    hide DateString, TimeString, YmdToJdn, ReadDate, ReadTime, Printable, JdnToYmd;
    var t, ms :| 0 <= ms < DAY_MS && ms % 1000 == 0 && Printable(t) && text == DateString(t) + TimeString(ms);
    DateBack(t, TimeString(ms));
    TimeBack(ms);
    assert text[..8] == DateString(t) && text[8..] == TimeString(ms);
    assert IsDateText(text[..8]);
    DateMeans(text[..8], text[8..]);
    assert text[..8] + text[8..] == text;
  }

  lemma FullSlot(rec: Bytes, f: Field, p: Payload)
    requires f.offset + f.length <= |rec| && p.Payload? && |p.bytes| == f.length
    ensures Slot(Written(rec, f, p), f) == p.bytes
  {}

  lemma DateWriteMeans(rec: Bytes, f: Field, text: Bytes, plat: Platform)
    requires f.offset + f.length <= |rec| && f.kind == AdtDate && f.length >= 4 && IsDateText(text)
    ensures SlotValue(f, Slot(Written(rec, f, TextPayload(f, text)), f), plat) == TextValue(text)
  {
    hide Written, Slot, Le, LeBytes, ReadDate, YmdToJdn, JdnToYmd, DateValue, IsDateText;
    DateMeans(text, []);
    assert text + [] == text;
    var d := ReadDate(text).value;
    var p := TextPayload(f, text);
    SlotOfWritten(rec, f, p);
    Powers();
    LeRoundTrip(YmdToJdn(d.year, d.month, d.day), 4);
    assert Slot(Written(rec, f, p), f)[..4] == p.bytes;
  }

  lemma StampWriteMeans(rec: Bytes, f: Field, text: Bytes, plat: Platform)
    requires f.offset + f.length <= |rec| && f.kind == AdtTimestamp && f.length >= 8 && IsStampText(text)
    ensures SlotValue(f, Slot(Written(rec, f, TextPayload(f, text)), f), plat) == TextValue(text)
  {
    hide Written, Slot, Le, LeBytes, ReadDate, ReadTime, YmdToJdn, JdnToYmd, StampValue, IsStampText;
    StampMeans(text);
    var d, ms := ReadDate(text).value, ReadTime(text[8..]).value;
    var jdn := YmdToJdn(d.year, d.month, d.day);
    var p := TextPayload(f, text);
    SlotOfWritten(rec, f, p);
    Powers();
    LeRoundTrip(jdn, 4);
    LeRoundTrip(ms, 4);
    var slot := Slot(Written(rec, f, p), f);
    assert ToUnsigned(ms, UINT32) == ms;
    assert slot[..4] == LeBytes(jdn, 4) && slot[4..8] == LeBytes(ms, 4);
  }

  /** A binary number is read back from the bytes that were written. */
  lemma NumberWriteMeans(rec: Bytes, f: Field, value: real, plat: Platform)
    requires f.offset + f.length <= |rec| && HoldsBinary(f) && Writable(f, value)
    requires f.kind == Double ==> IsDouble(value, plat)
    ensures SlotValue(f, Slot(Written(rec, f, NumberPayload(f, value, plat)), f), plat) == NumberMeaning(f, value, plat)
  {
    hide Written, Slot, Le, LeBytes, ClockText, Decimal, ToSigned, ToUnsigned, Stored, MoneyValue, DoubleValue,
      DateValue, StampValue, Strip, Sized, Buffered, Power256;
    var p := NumberPayload(f, value, plat);
    var w := Width(f.kind);
    var n := if f.kind == Double then plat.toBits(value) else Stored(f.kind, value);
    var raw := ToUnsigned(n, Power256(w));
    SlotOfWritten(rec, f, p);
    Powers();
    LeRoundTrip(raw, w);
    assert Slot(Written(rec, f, p), f)[..w] == p.bytes;
    WidthsAgree(f.kind);
    SmallIsSame(raw, Power256(w));
    if f.kind == Double || f.kind == AutoInc || f.kind == Time {
      SmallIsSame(n, Power256(w));
    } else {
      TwosComplement(n, Power256(w));
    }
  }

  lemma WidthsAgree(kind: FieldType)
    requires Width(kind) > 0
    ensures ReadWidth(kind) == Width(kind)
  {}

  lemma SmallIsSame(n: int, modulus: nat)
    requires 0 <= n < modulus
    ensures ToUnsigned(n, modulus) == n == n % modulus
  {}

  lemma NumericWriteMeans(rec: Bytes, f: Field, p: Bytes, plat: Platform)
    requires f.offset + f.length <= |rec| && IsNumeric(f.kind) && |p| == f.length
    ensures SlotValue(f, Slot(Written(rec, f, Payload(p)), f), plat) == TextNumber(p, plat)
  {
    FullSlot(rec, f, Payload(p));
  }

  /** A well-typed write is read back as what it means. */
  lemma WriteMeans(rec: Bytes, f: Field, op: Op, plat: Platform)
    requires f.offset + f.length <= |rec| && !op.SetDeleted? && Suits(f, op, plat)
    ensures HasMeaning(f)
    ensures SlotValue(f, Slot(Written(rec, f, PayloadOf(f, op, plat)), f), plat) == Meaning(f, op, plat)
  {
    match op
    case SetText(_, text) => TextOpMeans(rec, f, text, plat);
    case SetNumber(_, value) => NumberOpMeans(rec, f, value, plat);
    case SetLogical(_, truth) => LogicalWriteMeans(rec, f, truth, plat);
  }

  lemma TextOpMeans(rec: Bytes, f: Field, text: Bytes, plat: Platform)
    requires f.offset + f.length <= |rec| && Suits(f, SetText(0, text), plat)
    ensures HasMeaning(f)
    ensures SlotValue(f, Slot(Written(rec, f, TextPayload(f, text)), f), plat) == Meaning(f, SetText(0, text), plat)
  {
    hide Written, Slot, SlotValue, TextPayload, Strip, TextNumber, IsDateText, IsStampText;
    if IsText(f.kind) {
      TextWriteMeans(rec, f, text, plat);
    } else if f.kind == AdtDate {
      DateWriteMeans(rec, f, text, plat);
    } else if f.kind == AdtTimestamp {
      StampWriteMeans(rec, f, text, plat);
    } else {
      NumericText(f, text);
      NumericWriteMeans(rec, f, Sized(text, f.length, ' '), plat);
    }
  }

  lemma NumericText(f: Field, text: Bytes)
    requires IsNumeric(f.kind)
    ensures TextPayload(f, text) == Payload(Sized(text, f.length, ' '))
  {}

  lemma NumberOpMeans(rec: Bytes, f: Field, value: real, plat: Platform)
    requires f.offset + f.length <= |rec| && Suits(f, SetNumber(0, value), plat)
    ensures HasMeaning(f)
    ensures SlotValue(f, Slot(Written(rec, f, NumberPayload(f, value, plat)), f), plat) == NumberMeaning(f, value, plat)
  {
    hide Written, Slot, SlotValue, TextNumber, Stored, Sized, Buffered;
    if HoldsBinary(f) {
      NumberWriteMeans(rec, f, value, plat);
    } else {
      NumericWriteMeans(rec, f, Sized(Buffered(plat.padded(f.length, f.decimals, value)), f.length, ' '), plat);
    }
  }

  lemma TextWriteMeans(rec: Bytes, f: Field, text: Bytes, plat: Platform)
    requires f.offset + f.length <= |rec| && IsText(f.kind)
    ensures HasMeaning(f)
    ensures SlotValue(f, Slot(Written(rec, f, TextPayload(f, text)), f), plat)
      == TextValue(Strip(Cut(text, f.length), Padding(f.kind)))
  {
    hide Written, Slot, Strip, Fitted, SlotValue, TextPayload, Padding, IsText;
    assert TextPayload(f, text) == Payload(Fitted(f, text)) by { TextPayloadIs(f, text); }
    FullSlot(rec, f, TextPayload(f, text));
    TextSlot(f, Fitted(f, text), plat);
    FittedMeans(f, text);
  }

  lemma TextPayloadIs(f: Field, text: Bytes)
    requires IsText(f.kind)
    ensures TextPayload(f, text) == Payload(Fitted(f, text))
  {}

  lemma TextSlot(f: Field, p: Bytes, plat: Platform)
    requires IsText(f.kind) && |p| == f.length
    ensures HasMeaning(f) && SlotValue(f, p, plat) == TextValue(Strip(p, Padding(f.kind)))
  {
    hide Strip, Padding, BinaryValue, ReadWidth, TextNumber, LogicalValue;
    assert ReadWidth(f.kind) == 0 by { NotBinary(f.kind); }
  }

  lemma NotBinary(kind: FieldType)
    requires IsText(kind)
    ensures ReadWidth(kind) == 0
  {}

  lemma LogicalWriteMeans(rec: Bytes, f: Field, truth: bool, plat: Platform)
    requires f.offset + f.length <= |rec| && f.kind == Logical && f.length >= 1
    ensures SlotValue(f, Slot(Written(rec, f, Payload([if truth then 'T' else 'F'])), f), plat)
      == FieldValue(if truth then "T" else "F", 0.0, truth, false)
  {
    hide Written, Slot;
    SlotOfWritten(rec, f, Payload([if truth then 'T' else 'F']));
  }

  // ----- any run

  lemma StepRefines(fields: seq<Field>, rec: Bytes, op: Op, plat: Platform)
    requires rec != [] && Laid(fields, |rec|) && Typed(fields, op, plat)
    ensures Abs(fields, Apply(fields, rec, op, plat), plat) == Step(fields, Abs(fields, rec, plat), op, plat)
  {
    hide SlotValue, Slot, Written, Meaning, PayloadOf, Suits, TextPayload, NumberPayload, LogicalWritten, DeletedWritten,
      Laid, IsDeleted;
    InLaid(fields, |rec|);
    var after := Apply(fields, rec, op, plat);
    forall k: nat | k < |fields| && HasMeaning(fields[k]) && (op.SetDeleted? || k != op.field)
      ensures Slot(after, fields[k]) == Slot(rec, fields[k])
    {
      OthersUntouched(fields, rec, op, k, plat);
    }
    if op.SetDeleted? {
      DeletionWritten(rec, op.deleted);
    } else {
      ApplyWrites(fields, rec, op, plat);
      WriteMeans(rec, fields[op.field], op, plat);
      DeletionUntouched(fields, rec, op, plat);
    }
    var m := Step(fields, Abs(fields, rec, plat), op, plat).values;
    assert Abs(fields, after, plat).values.Keys == m.Keys;
    assert Abs(fields, after, plat).values == m;
  }

  lemma OthersUntouched(fields: seq<Field>, rec: Bytes, op: Op, k: nat, plat: Platform)
    requires rec != [] && Laid(fields, |rec|) && Typed(fields, op, plat)
    requires k < |fields| && (op.SetDeleted? || k != op.field)
    ensures Slot(Apply(fields, rec, op, plat), fields[k]) == Slot(rec, fields[k])
  {
    hide TextPayload, NumberPayload, Writable, Written, IsDateText, IsStampText, Slot;
    if op.SetDeleted? {
      BehindDeletion(rec, fields[k], op.deleted);
    } else {
      ApplyWrites(fields, rec, op, plat);
      SlotUntouched(rec, fields[op.field], fields[k], PayloadOf(fields[op.field], op, plat));
    }
  }

  lemma BehindDeletion(rec: Bytes, g: Field, deleted: bool)
    requires rec != [] && 1 <= g.offset && g.offset + g.length <= |rec|
    ensures Slot(DeletedWritten(rec, deleted), g) == Slot(rec, g)
  {
    var after := DeletedWritten(rec, deleted);
    assert forall i | 1 <= i < |rec| :: after[i] == rec[i];
  }

  lemma DeletionWritten(rec: Bytes, deleted: bool)
    requires rec != []
    ensures IsDeleted(DeletedWritten(rec, deleted)) == deleted
  {}

  lemma InLaid(fields: seq<Field>, recordSize: nat)
    requires Laid(fields, recordSize)
    ensures forall k | 0 <= k < |fields| :: fields[k].offset + fields[k].length <= recordSize
  {}

  lemma DeletionUntouched(fields: seq<Field>, rec: Bytes, op: Op, plat: Platform)
    requires rec != [] && Laid(fields, |rec|) && Typed(fields, op, plat) && !op.SetDeleted?
    ensures IsDeleted(Apply(fields, rec, op, plat)) == IsDeleted(rec)
  {}

  /** Any run of writes acts on the buffer as it acts on the map. */
  lemma {:induction false} RunRefines(fields: seq<Field>, rec: Bytes, ops: seq<Op>, plat: Platform)
    requires rec != [] && Laid(fields, |rec|) && forall k | 0 <= k < |ops| :: Typed(fields, ops[k], plat)
    ensures Abs(fields, Run(fields, rec, ops, plat), plat) == Steps(fields, Abs(fields, rec, plat), ops, plat)
  {
    hide Abs, Step, Apply, Typed, Laid;
    if ops != [] {
      RunRefines(fields, rec, ops[..|ops| - 1], plat);
      StepRefines(fields, Run(fields, rec, ops[..|ops| - 1], plat), ops[|ops| - 1], plat);
    }
  }

  predicate Writes(op: Op, k: nat) { !op.SetDeleted? && op.field == k }

  /** `ops[i]` is the last write to field `k`. */
  predicate IsLastWrite(ops: seq<Op>, k: nat, i: nat) {
    i < |ops| && Writes(ops[i], k) && forall j | i < j < |ops| :: !Writes(ops[j], k)
  }

  lemma {:induction false} LastStep(fields: seq<Field>, m: Image, ops: seq<Op>, k: nat, i: nat, plat: Platform)
    requires (forall j | 0 <= j < |ops| :: Typed(fields, ops[j], plat)) && IsLastWrite(ops, k, i)
    ensures k in Steps(fields, m, ops, plat).values
    ensures Steps(fields, m, ops, plat).values[k] == Meaning(fields[k], ops[i], plat)
  {
    hide Meaning, Suits;
    var n := |ops| - 1;
    if i < n {
      assert !Writes(ops[n], k);
      LastStep(fields, m, ops[..n], k, i, plat);
    }
  }

  lemma {:induction false} NoStep(fields: seq<Field>, m: Image, ops: seq<Op>, k: nat, plat: Platform)
    requires (forall j | 0 <= j < |ops| :: Typed(fields, ops[j], plat) && !Writes(ops[j], k)) && k in m.values
    ensures k in Steps(fields, m, ops, plat).values && Steps(fields, m, ops, plat).values[k] == m.values[k]
  {
    hide Meaning, Suits;
    if ops != [] {
      NoStep(fields, m, ops[..|ops| - 1], k, plat);
    }
  }

  /** After a run, field `k` has the value of the last write to it; a field nobody wrote keeps its value. */
  lemma LastWriteWins(fields: seq<Field>, rec: Bytes, ops: seq<Op>, k: nat, plat: Platform)
    requires rec != [] && Laid(fields, |rec|) && forall i | 0 <= i < |ops| :: Typed(fields, ops[i], plat)
    requires k < |fields| && HasMeaning(fields[k])
    ensures var v := SlotValue(fields[k], Slot(Run(fields, rec, ops, plat), fields[k]), plat);
      && (forall i: nat | IsLastWrite(ops, k, i) :: v == Meaning(fields[k], ops[i], plat))
      && ((forall i | 0 <= i < |ops| :: !Writes(ops[i], k)) ==> v == SlotValue(fields[k], Slot(rec, fields[k]), plat))
  {
    hide SlotValue, Slot, Meaning, Run, Steps, Laid, Abs;
    RunRefines(fields, rec, ops, plat);
    forall i: nat | IsLastWrite(ops, k, i)
      ensures k in Steps(fields, Abs(fields, rec, plat), ops, plat).values
      ensures Steps(fields, Abs(fields, rec, plat), ops, plat).values[k] == Meaning(fields[k], ops[i], plat)
    {
      LastStep(fields, Abs(fields, rec, plat), ops, k, i, plat);
    }
    InAbs(fields, rec, k, plat);
    if forall i | 0 <= i < |ops| :: !Writes(ops[i], k) {
      NoStep(fields, Abs(fields, rec, plat), ops, k, plat);
    }
    InAbs(fields, Run(fields, rec, ops, plat), k, plat);
  }

  lemma InAbs(fields: seq<Field>, rec: Bytes, k: nat, plat: Platform)
    requires Laid(fields, |rec|) && k < |fields| && HasMeaning(fields[k])
    ensures fields[k].offset + fields[k].length <= |rec|
    ensures var m := Abs(fields, rec, plat).values;
      k in m && m[k] == SlotValue(fields[k], Slot(rec, fields[k]), plat)
  {
    hide SlotValue, Slot;
  }

  // ----- time stamps

  /** Three types are read as a day number and milliseconds, but only one is written so: a time stamp
      survives exactly in an AdtTimestamp field. */
  lemma StampSurvivesExactly(rec: Bytes, f: Field, text: Bytes, plat: Platform)
    requires f.offset + f.length <= |rec| && f.length >= 8 && IsStampText(text)
    requires f.kind == DateTime || f.kind == ModTime || f.kind == AdtTimestamp
    ensures SlotValue(f, Slot(Written(rec, f, TextPayload(f, text)), f), plat).text == text <==> f.kind == AdtTimestamp
  {
    hide Slot, Written, SlotValue, TextPayload;
    if f.kind == AdtTimestamp {
      StampWriteMeans(rec, f, text, plat);
    } else {
      assert TextPayload(f, text) == Payload(Fitted(f, text)) by { WrittenAsText(f, text); }
      FullSlot(rec, f, Payload(Fitted(f, text)));
      StampIsLost(f, text, plat);
    }
  }

  lemma WrittenAsText(f: Field, text: Bytes)
    requires f.kind == DateTime || f.kind == ModTime
    ensures TextPayload(f, text) == Payload(Fitted(f, text))
  {}

  lemma StampIsLost(f: Field, text: Bytes, plat: Platform)
    requires f.length >= 8 && IsStampText(text) && (f.kind == DateTime || f.kind == ModTime)
    ensures SlotValue(f, Fitted(f, text), plat).text != text
  {
    hide TimeString, DateString, Le, JdnToYmd, IsStampText;
    var p := Fitted(f, text);
    StampDigits(text);
    assert p[..4] == text[..4];
    AsciiIsLarge(p[..4]);
    LateDate(Le(p[..4]));
    TimeWidth(Le(p[4..8]));
  }

  lemma StampDigits(text: string)
    requires IsStampText(text)
    ensures |text| == 14 && All(text[..4], IsDigit)
  {
    hide TimeString, DateString;
    var t, ms :| 0 <= ms < DAY_MS && ms % 1000 == 0 && Printable(t) && text == DateString(t) + TimeString(ms);
    DateShape(t);
    TimeBack(ms);
    assert text[..4] == DateString(t)[..4];
  }

  lemma AsciiIsLarge(p: Bytes)
    requires |p| == 4 && All(p, IsDigit)
    ensures Le(p) >= 48 * (1 + 256 + 65536 + 16777216)
  {
    assert p[1..][1..] == p[2..] && p[2..][1..] == p[3..] && p[3..][1..] == [];
    assert Le(p) == p[0] as int + 256 * (p[1] as int + 256 * (p[2] as int + 256 * p[3] as int));
  }

  lemma LateDate(jdn: nat)
    requires jdn > 5373484
    ensures |DateString(JdnToYmd(jdn))| >= 9
  {
    hide JdnToYmd, DayNumber, ZeroPadded;
    var t, last := JdnToYmd(jdn), Date.Date(9999, 12, 31);
    JdnRoundTrip(jdn);
    PrintableInRange(last);
    DayNumberOrder(last, t);
    assert DayNumber(9999, 12, 31) <= 5373484;
    PaddedWidth(t.year, 4);
    PaddedWidth(t.month, 2);
    PaddedWidth(t.day, 2);
    LongDecimal(t.year, 4);
  }

  lemma PaddedWidth(n: nat, width: nat)
    ensures |ZeroPadded(n, width)| >= width && |ZeroPadded(n, width)| >= |Decimal(n)|
  {}

  lemma {:induction false} LongDecimal(n: nat, width: nat)
    requires n >= Power10(width)
    ensures |Decimal(n)| > width
  {
    if width > 0 {
      LongDecimal(n / 10, width - 1);
    }
  }

  lemma TimeWidth(ms: nat)
    ensures |TimeString(ms)| >= 6
  {
    hide ZeroPadded;
    PaddedWidth(ms / 3600000, 2);
    PaddedWidth(ms % 3600000 / 60000, 2);
    PaddedWidth(ms % 60000 / 1000, 2);
  }
}

/** What single bytes of a record mean, for each type of field. */
module RecordMeaning {
  import opened Text
  import opened Dbf
  import opened Calendar
  import opened DateText
  import opened FieldLayout
  import opened Record
  import opened RecordMap

  // ----- text

  /** A written text stands at the front of its field; behind it come zero bytes in a Varchar or Varbinary
      field, and blanks in any other. */
  lemma TextBytes(rec: Bytes, f: Field, text: Bytes)
    requires f.offset + f.length <= |rec| && IsText(f.kind)
    ensures var p := Slot(Written(rec, f, TextPayload(f, text)), f);
      && (forall k | 0 <= k < f.length && k < |text| :: p[k] == text[k])
      && (forall k | |text| <= k < f.length :: p[k] as int == if f.kind.Varchar? || f.kind.Varbinary? then 0 else 32)
  {
    hide Written, Slot;
    TextPayloadIs(f, text);
    FullSlot(rec, f, Payload(Fitted(f, text)));
  }

  /** A text that fits and does not end in a zero byte is read back from Varchar and Varbinary as it is. */
  lemma VarcharBack(rec: Bytes, f: Field, text: Bytes, plat: Platform)
    requires f.offset + f.length <= |rec| && (f.kind == Varchar || f.kind == Varbinary)
    requires |text| <= f.length && (text == [] || text[|text| - 1] as int != 0)
    ensures SlotValue(f, Slot(Written(rec, f, TextPayload(f, text)), f), plat).text == text
  {
    hide Written, Slot, SlotValue, TextPayload;
    TextWriteMeans(rec, f, text, plat);
    StripIs(text, text, NUL);
  }

  /** A text that fits is read back from the other text types without its trailing blanks, and with nothing
      else lost. */
  lemma CharacterBack(rec: Bytes, f: Field, text: Bytes, plat: Platform)
    requires f.offset + f.length <= |rec| && |text| <= f.length
    requires f.kind == Character || f.kind == CiCharacter || f.kind == FieldType.Date || f.kind == Unknown
    ensures var t := SlotValue(f, Slot(Written(rec, f, TextPayload(f, text)), f), plat).text;
      && t <= text && (t == [] || t[|t| - 1] != ' ') && forall k | |t| <= k < |text| :: text[k] == ' '
  {
    hide Written, Slot, SlotValue, TextPayload;
    TextWriteMeans(rec, f, text, plat);
  }

  /** A field of a binary type that is too short for it is read as text without trailing blanks. */
  lemma ShortIsText(f: Field, p: Bytes, plat: Platform)
    requires |p| == f.length
    requires (f.kind == ShortInt && f.length < 2)
      || ((f.kind == Integer || f.kind == AutoInc || f.kind == Time || f.kind == AdtDate) && f.length < 4)
      || ((f.kind == Currency || f.kind == AdtMoney || f.kind == Double || f.kind == RowVersion) && f.length < 8)
      || ((f.kind == DateTime || f.kind == AdtTimestamp || f.kind == ModTime) && f.length < 8)
    ensures var v := SlotValue(f, p, plat);
      && v == FieldValue(v.text, 0.0, false, false)
      && v.text <= p && (v.text == [] || v.text[|v.text| - 1] != ' ') && forall k | |v.text| <= k < |p| :: p[k] == ' '
  {
    hide BinaryValue, Strip, SlotValue;
    assert SlotValue(f, p, plat) == TextValue(Strip(p, ' ')) by { TooShort(f, p, plat); }
  }

  lemma TooShort(f: Field, p: Bytes, plat: Platform)
    requires |p| == f.length < ReadWidth(f.kind)
    ensures f.kind != Logical && SlotValue(f, p, plat) == TextValue(Strip(p, ' '))
  {
    hide BinaryValue, Strip;
  }

  /** Memo and binary fields hold a reference, which is no value. */
  lemma ReferencesAreEmpty(f: Field, p: Bytes, plat: Platform)
    requires |p| == f.length && (f.kind == Memo || f.kind == Binary)
    ensures SlotValue(f, p, plat) == FieldValue("", 0.0, false, false)
  {}

  /** A Numeric field has its trimmed text, and the number the platform reads in its first 63 bytes. */
  lemma NumericValue(f: Field, p: Bytes, plat: Platform)
    requires |p| == f.length && (f.kind == Numeric || f.kind == Float)
    ensures var v := SlotValue(f, p, plat);
      && v == FieldValue(v.text, v.number, false, false)
      && v.text <= p && (v.text == [] || v.text[|v.text| - 1] != ' ') && (forall k | |v.text| <= k < |p| :: p[k] == ' ')
      && (|p| <= 63 ==> v.number == plat.strtod(p)) && (|p| > 63 ==> v.number == plat.strtod(p[..63]))
  {}

  /** A logical field is true for `T` and `Y` in either case. */
  lemma LogicalByte(f: Field, p: Bytes, plat: Platform)
    requires |p| == f.length >= 1 && f.kind == Logical
    ensures SlotValue(f, p, plat) == FieldValue([p[0]], 0.0, p[0] as int in {84, 116, 89, 121}, false)
  {}

  // ----- numbers

  /** A cast goes toward zero. */
  lemma TruncateMeans(x: real)
    ensures x >= 0.0 ==> 0.0 <= x - Truncate(x) as real < 1.0
    ensures x < 0.0 ==> -1.0 < x - Truncate(x) as real <= 0.0
  {}

  /** Money is a whole number of ten-thousandths, printed with four decimals. */
  lemma MoneyMeans(value: real, plat: Platform)
    ensures var v := MoneyValue(Truncate(value * 10000.0), plat);
      && v.number * 10000.0 == Truncate(value * 10000.0) as real
      && (value >= 0.0 ==> 0.0 <= value - v.number < 0.0001) && (value < 0.0 ==> -0.0001 < value - v.number <= 0.0)
      && v.text == plat.fixedPoint(4, v.number) && !v.truth && !v.isNull
  {
    var n := Truncate(value * 10000.0) as real;
    TruncateMeans(value * 10000.0);
    assert n / 10000.0 * 10000.0 == n;
  }

  /** A double is printed with the decimals of its field, or in full if it has none. */
  lemma DoubleMeans(f: Field, p: Bytes, plat: Platform)
    requires f.kind == Double && |p| == f.length >= 8
    ensures var x := plat.ofBits(Le(p[..8]));
      SlotValue(f, p, plat) ==
        FieldValue(if f.decimals == 0 then plat.general(x) else plat.fixedPoint(f.decimals, x), x, false, false)
  {}

  /** An Integer field of four bytes or more holds a signed number in two's complement. */
  lemma IntegerMeans(f: Field, p: Bytes, plat: Platform)
    requires f.kind == Integer && |p| == f.length >= 4
    ensures var v := SlotValue(f, p, plat);
      var m := p[0] as int + 256 * p[1] as int + 65536 * p[2] as int + 16777216 * p[3] as int;
      var x := if m >= 2147483648 then m - 4294967296 else m;
      v == FieldValue(v.text, x as real, false, false) && Stoi(v.text) == Some(x)
  {
    hide Signed, Stoi, Le, Strip, DateValue, StampValue, MoneyValue, DoubleValue, ClockText;
    FourBytes(p[..4]);
    assert p[..4][0] == p[0] && p[..4][1] == p[1] && p[..4][2] == p[2] && p[..4][3] == p[3];
    PaddedBack(ToSigned(Le(p[..4]) % UINT32, UINT32), 0);
  }

  lemma ShortIntMeans(f: Field, p: Bytes, plat: Platform)
    requires f.kind == ShortInt && |p| == f.length >= 2
    ensures var v, m := SlotValue(f, p, plat), p[0] as int + 256 * p[1] as int;
      var x := if m >= 32768 then m - 65536 else m;
      v == FieldValue(v.text, x as real, false, false) && Stoi(v.text) == Some(x)
  {
    hide Signed, Stoi, Le, Strip, DateValue, StampValue, MoneyValue, DoubleValue, ClockText;
    TwoBytes(p[..2]);
    PaddedBack(ToSigned(Le(p[..2]) % UINT16, UINT16), 0);
  }

  /** An AutoInc field holds an unsigned number. */
  lemma AutoIncMeans(f: Field, p: Bytes, plat: Platform)
    requires f.kind == AutoInc && |p| == f.length >= 4
    ensures var v := SlotValue(f, p, plat);
      var m := p[0] as int + 256 * p[1] as int + 65536 * p[2] as int + 16777216 * p[3] as int;
      v == FieldValue(v.text, m as real, false, false) && Stoi(v.text) == Some(m)
  {
    hide Signed, Decimal, Stoi, Le, Strip, DateValue, StampValue, MoneyValue, DoubleValue, ClockText;
    FourBytes(p[..4]);
    assert p[..4][0] == p[0] && p[..4][1] == p[1] && p[..4][2] == p[2] && p[..4][3] == p[3];
    PaddedBack(Le(p[..4]), 0);
    PlainDecimal(Le(p[..4]));
  }

  lemma TwoBytes(bs: Bytes)
    requires |bs| == 2
    ensures Le(bs) == bs[0] as int + 256 * bs[1] as int
  {
    assert bs[1..][1..] == [];
    assert Le(bs[1..]) == bs[1] as int;
  }

  lemma PlainDecimal(n: nat)
    ensures Signed(n) == Decimal(n)
  {}

  /** A row version is printed in decimal. */
  lemma RowVersionMeans(f: Field, p: Bytes, plat: Platform)
    requires f.kind == RowVersion && |p| == f.length >= 8
    ensures SlotValue(f, p, plat) == TextValue(Decimal(Le(p[..4]) + 4294967296 * Le(p[4..8])))
  {
    hide Decimal, Le;
    EightBytes(p[..8]);
    assert p[..8][..4] == p[..4] && p[..8][4..] == p[4..8];
  }

  lemma EightBytes(bs: Bytes)
    requires |bs| == 8
    ensures Le(bs) == Le(bs[..4]) + 4294967296 * Le(bs[4..])
  {
    FourBytes(bs[..4]);
    assert bs[1..][1..] == bs[2..] && bs[2..][1..] == bs[3..] && bs[3..][1..] == bs[4..];
    assert Le(bs) == bs[0] as int + 256 * Le(bs[1..]);
    assert Le(bs[1..]) == bs[1] as int + 256 * Le(bs[2..]);
    assert Le(bs[2..]) == bs[2] as int + 256 * Le(bs[3..]);
    assert Le(bs[3..]) == bs[3] as int + 256 * Le(bs[4..]);
  }

  /** A number written as text keeps its formatted text if that is as long as the field, as the formats
      make it; a field of 64 bytes loses its last one. */
  lemma FormattedNumber(f: Field, value: real, plat: Platform)
    requires !HoldsBinary(f) && f.length <= 64 && |plat.padded(f.length, f.decimals, value)| >= f.length
    ensures var text, p := plat.padded(f.length, f.decimals, value), NumberPayload(f, value, plat).bytes;
      && |p| == f.length && (forall k | 0 <= k < f.length && k < 63 :: p[k] == text[k])
      && (f.length == 64 ==> p[63] as int == 0)
  {}

  /** A shorter formatted text is padded with blanks. */
  lemma ShortNumber(f: Field, value: real, plat: Platform)
    requires !HoldsBinary(f) && |plat.padded(f.length, f.decimals, value)| < f.length <= 64
    ensures var text, p := plat.padded(f.length, f.decimals, value), NumberPayload(f, value, plat).bytes;
      |p| == f.length && text <= p && forall k | |text| <= k < f.length :: p[k] == ' '
  {}

  // ----- times and dates

  /** Day number 0 is the null date, and only that; a time stamp is null if it is all zero. */
  lemma NullDates(jdn: nat, ms: nat)
    ensures DateValue(jdn).isNull <==> jdn == 0
    ensures StampValue(jdn, ms).isNull <==> jdn == 0 && ms == 0
    ensures DateValue(0) == StampValue(0, 0) == FieldValue("", 0.0, false, true)
    ensures jdn > 0 ==> DateValue(jdn) == TextValue(DateString(JdnToYmd(jdn)))
  {}

  /** A time of day is printed as `HH:MM:SS.mmm`. */
  lemma ClockMeans(h: nat, m: nat, s: nat, milli: nat)
    requires h < 24 && m < 60 && s < 60 && milli < 1000
    ensures ClockText(((h * 60 + m) * 60 + s) * 1000 + milli)
      == ZeroPadded(h, 2) + ":" + ZeroPadded(m, 2) + ":" + ZeroPadded(s, 2) + "." + ZeroPadded(milli, 3)
  {
    var ms := ((h * 60 + m) * 60 + s) * 1000 + milli;
    assert ms / 3600000 == h && ms % 3600000 / 60000 == m && ms % 60000 / 1000 == s && ms % 1000 == milli by {
      ClockParts(ms, h, m, s, milli);
    }
  }

  lemma ClockParts(ms: nat, h: nat, m: nat, s: nat, milli: nat)
    requires h < 24 && m < 60 && s < 60 && milli < 1000 && ms == 3600000 * h + 60000 * m + 1000 * s + milli
    ensures ms / 3600000 == h && ms % 3600000 / 60000 == m && ms % 60000 / 1000 == s && ms % 1000 == milli
  {
    assert ms % 3600000 == 60000 * m + 1000 * s + milli;
    assert ms % 60000 == 1000 * s + milli by { assert ms == 60000 * (60 * h + m) + (1000 * s + milli); }
    assert ms % 1000 == milli by { assert ms == 1000 * (3600 * h + 60 * m + s) + milli; }
  }
}

/** CP437 / UTF-8 conversion of the OEM codepage layer. */
module CodePage {
  import opened Charset
  import opened CharsetTheory

  // ----- the table

  function Pick(i: int, a: int, b: int, c: int, d: int, e: int, f: int, g: int, h: int): int {
    if i < 4 then (if i < 2 then (if i == 0 then a else b) else (if i == 2 then c else d))
    else (if i < 6 then (if i == 4 then e else f) else (if i == 6 then g else h))
  }

  /** The code points of the bytes 0x80 to 0xFF, eight to a row. */
  function Cell(row: int, i: int): int {
    if row == 0 then Pick(i, 0x00C7, 0x00FC, 0x00E9, 0x00E2, 0x00E4, 0x00E0, 0x00E5, 0x00E7)
    else if row == 1 then Pick(i, 0x00EA, 0x00EB, 0x00E8, 0x00EF, 0x00EE, 0x00EC, 0x00C4, 0x00C5)
    else if row == 2 then Pick(i, 0x00C9, 0x00E6, 0x00C6, 0x00F4, 0x00F6, 0x00F2, 0x00FB, 0x00F9)
    else if row == 3 then Pick(i, 0x00FF, 0x00D6, 0x00DC, 0x00A2, 0x00A3, 0x00A5, 0x20A7, 0x0192)
    else if row == 4 then Pick(i, 0x00E1, 0x00ED, 0x00F3, 0x00FA, 0x00F1, 0x00D1, 0x00AA, 0x00BA)
    else if row == 5 then Pick(i, 0x00BF, 0x2310, 0x00AC, 0x00BD, 0x00BC, 0x00A1, 0x00AB, 0x00BB)
    else if row == 6 then Pick(i, 0x2591, 0x2592, 0x2593, 0x2502, 0x2524, 0x2561, 0x2562, 0x2556)
    else if row == 7 then Pick(i, 0x2555, 0x2563, 0x2551, 0x2557, 0x255D, 0x255C, 0x255B, 0x2510)
    else if row == 8 then Pick(i, 0x2514, 0x2534, 0x252C, 0x251C, 0x2500, 0x253C, 0x255E, 0x255F)
    else if row == 9 then Pick(i, 0x255A, 0x2554, 0x2569, 0x2566, 0x2560, 0x2550, 0x256C, 0x2567)
    else if row == 10 then Pick(i, 0x2568, 0x2564, 0x2565, 0x2559, 0x2558, 0x2552, 0x2553, 0x256B)
    else if row == 11 then Pick(i, 0x256A, 0x2518, 0x250C, 0x2588, 0x2584, 0x258C, 0x2590, 0x2580)
    else if row == 12 then Pick(i, 0x03B1, 0x00DF, 0x0393, 0x03C0, 0x03A3, 0x03C3, 0x00B5, 0x03C4)
    else if row == 13 then Pick(i, 0x03A6, 0x0398, 0x03A9, 0x03B4, 0x221E, 0x03C6, 0x03B5, 0x2229)
    else if row == 14 then Pick(i, 0x2261, 0x00B1, 0x2265, 0x2264, 0x2320, 0x2321, 0x00F7, 0x2248)
    else Pick(i, 0x00B0, 0x2219, 0x00B7, 0x221A, 0x207F, 0x00B2, 0x25A0, 0x00A0)
  }

  function Upper(k: int): int
    requires 0 <= k < 128
  {
    Cell(k / 8, k % 8)
  }

  function Match(cp: int, c0: int, b0: int, c1: int, b1: int, c2: int, b2: int, c3: int, b3: int,
      c4: int, b4: int, c5: int, b5: int, c6: int, b6: int, c7: int, b7: int): int {
    if cp == c0 then b0 else if cp == c1 then b1 else if cp == c2 then b2 else if cp == c3 then b3
    else if cp == c4 then b4 else if cp == c5 then b5 else if cp == c6 then b6 else if cp == c7 then b7 else 0
  }

  /** The same table turned round: the code points in ascending order, each with its byte; 0 for a
      code point that is not in it. */
  function ByteOf(cp: int): int {
    if cp < 0x00B0 then Match(cp, 0x00A0, 0xFF, 0x00A1, 0xAD, 0x00A2, 0x9B, 0x00A3, 0x9C, 0x00A5, 0x9D, 0x00AA, 0xA6, 0x00AB, 0xAE, 0x00AC, 0xAA)
    else if cp < 0x00BD then Match(cp, 0x00B0, 0xF8, 0x00B1, 0xF1, 0x00B2, 0xFD, 0x00B5, 0xE6, 0x00B7, 0xFA, 0x00BA, 0xA7, 0x00BB, 0xAF, 0x00BC, 0xAC)
    else if cp < 0x00D6 then Match(cp, 0x00BD, 0xAB, 0x00BF, 0xA8, 0x00C4, 0x8E, 0x00C5, 0x8F, 0x00C6, 0x92, 0x00C7, 0x80, 0x00C9, 0x90, 0x00D1, 0xA5)
    else if cp < 0x00E6 then Match(cp, 0x00D6, 0x99, 0x00DC, 0x9A, 0x00DF, 0xE1, 0x00E0, 0x85, 0x00E1, 0xA0, 0x00E2, 0x83, 0x00E4, 0x84, 0x00E5, 0x86)
    else if cp < 0x00EE then Match(cp, 0x00E6, 0x91, 0x00E7, 0x87, 0x00E8, 0x8A, 0x00E9, 0x82, 0x00EA, 0x88, 0x00EB, 0x89, 0x00EC, 0x8D, 0x00ED, 0xA1)
    else if cp < 0x00F9 then Match(cp, 0x00EE, 0x8C, 0x00EF, 0x8B, 0x00F1, 0xA4, 0x00F2, 0x95, 0x00F3, 0xA2, 0x00F4, 0x93, 0x00F6, 0x94, 0x00F7, 0xF6)
    else if cp < 0x03A3 then Match(cp, 0x00F9, 0x97, 0x00FA, 0xA3, 0x00FB, 0x96, 0x00FC, 0x81, 0x00FF, 0x98, 0x0192, 0x9F, 0x0393, 0xE2, 0x0398, 0xE9)
    else if cp < 0x03C4 then Match(cp, 0x03A3, 0xE4, 0x03A6, 0xE8, 0x03A9, 0xEA, 0x03B1, 0xE0, 0x03B4, 0xEB, 0x03B5, 0xEE, 0x03C0, 0xE3, 0x03C3, 0xE5)
    else if cp < 0x2248 then Match(cp, 0x03C4, 0xE7, 0x03C6, 0xED, 0x207F, 0xFC, 0x20A7, 0x9E, 0x2219, 0xF9, 0x221A, 0xFB, 0x221E, 0xEC, 0x2229, 0xEF)
    else if cp < 0x2502 then Match(cp, 0x2248, 0xF7, 0x2261, 0xF0, 0x2264, 0xF3, 0x2265, 0xF2, 0x2310, 0xA9, 0x2320, 0xF4, 0x2321, 0xF5, 0x2500, 0xC4)
    else if cp < 0x2534 then Match(cp, 0x2502, 0xB3, 0x250C, 0xDA, 0x2510, 0xBF, 0x2514, 0xC0, 0x2518, 0xD9, 0x251C, 0xC3, 0x2524, 0xB4, 0x252C, 0xC2)
    else if cp < 0x2556 then Match(cp, 0x2534, 0xC1, 0x253C, 0xC5, 0x2550, 0xCD, 0x2551, 0xBA, 0x2552, 0xD5, 0x2553, 0xD6, 0x2554, 0xC9, 0x2555, 0xB8)
    else if cp < 0x255E then Match(cp, 0x2556, 0xB7, 0x2557, 0xBB, 0x2558, 0xD4, 0x2559, 0xD3, 0x255A, 0xC8, 0x255B, 0xBE, 0x255C, 0xBD, 0x255D, 0xBC)
    else if cp < 0x2566 then Match(cp, 0x255E, 0xC6, 0x255F, 0xC7, 0x2560, 0xCC, 0x2561, 0xB5, 0x2562, 0xB6, 0x2563, 0xB9, 0x2564, 0xD1, 0x2565, 0xD2)
    else if cp < 0x2584 then Match(cp, 0x2566, 0xCB, 0x2567, 0xCF, 0x2568, 0xD0, 0x2569, 0xCA, 0x256A, 0xD8, 0x256B, 0xD7, 0x256C, 0xCE, 0x2580, 0xDF)
    else Match(cp, 0x2584, 0xDC, 0x2588, 0xDB, 0x258C, 0xDD, 0x2590, 0xDE, 0x2591, 0xB0, 0x2592, 0xB1, 0x2593, 0xB2, 0x25A0, 0xFE)
  }

  predicate InTable(cp: int) { ByteOf(cp) != 0 }

  /** Every byte is the byte of its own code point, which is no ASCII character, no surrogate, and
      no two-unit code point. */
  lemma CellBack(row: int, i: int)
    requires 0 <= row < 16 && 0 <= i < 8
    ensures ByteOf(Cell(row, i)) == 0x80 + 8 * row + i
    ensures 0x80 <= Cell(row, i) < 0xD800
  {}

  lemma UpperBack(k: int)
    requires 0 <= k < 128
    ensures ByteOf(Upper(k)) == 0x80 + k && 0x80 <= Upper(k) < 0xD800
  {
    CellBack(k / 8, k % 8);
  }

  /** The two tables hold the same pairs. */
  lemma TablesAgree(cp: int)
    requires InTable(cp)
    ensures 0x80 <= ByteOf(cp) <= 0xFF && Upper(ByteOf(cp) - 0x80) == cp
  {}

  // ----- specification

  /** The code point of a CP437 byte. */
  function Point(b: Byte): (cp: int)
    ensures IsScalar(cp)
  {
    if b < 0x80 then b else UpperBack(b - 0x80); Upper(b - 0x80)
  }

  function Points(bytes: seq<Byte>): (cs: seq<int>)
    ensures |cs| == |bytes| && AllScalars(cs)
    ensures forall k | 0 <= k < |bytes| :: cs[k] == Point(bytes[k])
  {
    if bytes == [] then [] else [Point(bytes[0])] + Points(bytes[1..])
  }

  /** The byte written for a code point: '?' for one outside the table. */
  function Narrow(cp: int): Byte {
    if 0 <= cp < 0x80 then cp else if InTable(cp) then TablesAgree(cp); ByteOf(cp) else 0x3F
  }

  function NarrowAll(cs: seq<int>): seq<Byte> {
    if cs == [] then [] else [Narrow(cs[0])] + NarrowAll(cs[1..])
  }

  /** What `Utf8ToCp437` reads at `i`.  Unlike the decoder of `Charset` it does not look at the
      leading bits of the bytes after the first, and accepts overlong forms. */
  function LoosePoint(s: seq<Byte>, i: nat): int
    requires i < |s|
  {
    if s[i] < 0x80 then s[i]
    else if s[i] / 32 == 6 && i + 1 < |s| then Bits2(s[i], s[i + 1])
    else if s[i] / 16 == 14 && i + 2 < |s| then Bits3(s[i], s[i + 1], s[i + 2])
    else if s[i] / 8 == 30 && i + 3 < |s| then Bits4(s[i], s[i + 1], s[i + 2], s[i + 3])
    else 0x3F
  }

  function LooseWidth(s: seq<Byte>, i: nat): (n: nat)
    requires i < |s|
    ensures 1 <= n <= |s| - i
  {
    if s[i] < 0x80 then 1
    else if s[i] / 32 == 6 && i + 1 < |s| then 2
    else if s[i] / 16 == 14 && i + 2 < |s| then 3
    else if s[i] / 8 == 30 && i + 3 < |s| then 4
    else 1
  }

  function LoosePoints(s: seq<Byte>, i: nat): seq<int>
    requires i <= |s|
    decreases |s| - i
  {
    if i == |s| then [] else [LoosePoint(s, i)] + LoosePoints(s, i + LooseWidth(s, i))
  }

  /** The byte for a code point: itself in ASCII, the place of a table entry, and `?` for anything else. */
  lemma NarrowMeans(cp: int)
    ensures 0 <= cp < 0x80 ==> Narrow(cp) == cp
    ensures forall k | 0 <= k < 128 && Upper(k) == cp :: Narrow(cp) == 0x80 + k
    ensures !(0 <= cp < 0x80) && (forall k | 0 <= k < 128 :: Upper(k) != cp) ==> Narrow(cp) == '?' as int
  {
    hide Upper, ByteOf;
    forall k | 0 <= k < 128 && Upper(k) == cp
      ensures Narrow(cp) == 0x80 + k
    {
      UpperBack(k);
    }
    if !(0 <= cp < 0x80) && InTable(cp) {
      TablesAgree(cp);
    }
  }

  /** A byte that starts no sequence, or one that is cut off by the end of the text, is read as `?`. */
  lemma StrayByte(s: seq<Byte>, i: nat)
    requires i < |s|
    requires 0x80 <= s[i] < 0xC0 || s[i] >= 0xF8
      || (0xC0 <= s[i] < 0xE0 && i + 1 == |s|) || (0xE0 <= s[i] < 0xF0 && i + 2 >= |s|)
      || (0xF0 <= s[i] < 0xF8 && i + 3 >= |s|)
    ensures LoosePoint(s, i) == '?' as int && LooseWidth(s, i) == 1
  {}

  // ----- the conversions

  method ReverseTable() returns (r: map<int, Byte>)
    ensures forall cp :: cp in r <==> InTable(cp)
    ensures forall cp | cp in r :: r[cp] == ByteOf(cp)
  {
    hide Upper, ByteOf, InTable;
    r := map[];
    var i := 0;
    while i < 128
      invariant 0 <= i <= 128
      invariant forall k | 0 <= k < i :: Upper(k) in r
      invariant forall cp | cp in r :: InTable(cp) && r[cp] == ByteOf(cp)
    {
      UpperBack(i);
      UpperInTable(i);
      if Upper(i) !in r {
        r := r[Upper(i) := 0x80 + i];
      }
      i := i + 1;
    }
    forall cp | InTable(cp)
      ensures cp in r
    {
      TablesAgree(cp);
      assert Upper(ByteOf(cp) - 0x80) in r;
    }
  }

  lemma UpperInTable(k: int)
    requires 0 <= k < 128
    ensures InTable(Upper(k))
  {
    UpperBack(k);
  }

  method Cp437ToUtf8(bytes: seq<Byte>) returns (out: seq<Byte>)
    ensures out == EncodeAll8(Points(bytes))
  {
    out := [];
    for i := 0 to |bytes|
      invariant out == EncodeAll8(Points(bytes[..i]))
    {
      hide Upper, EncodeUtf8;
      var b := bytes[i];
      EncodeSnoc(Points(bytes[..i]), Point(b));
      PointsSnoc(bytes[..i], b);
      assert bytes[..i + 1] == bytes[..i] + [b];
      if b < 0x80 {
        AsciiEncoding(b);
        out := out + [b];
      } else {
        UpperBack(b - 0x80);
        out := PushUtf8(Upper(b - 0x80), out);
      }
    }
    assert bytes[..|bytes|] == bytes;
  }

  lemma AsciiEncoding(b: Byte)
    requires b < 0x80
    ensures EncodeUtf8(b) == [b]
  {}

  lemma PointsSnoc(bytes: seq<Byte>, b: Byte)
    ensures Points(bytes + [b]) == Points(bytes) + [Point(b)]
  {}

  lemma {:induction false} EncodeSnoc(cs: seq<int>, cp: int)
    requires AllScalars(cs) && IsScalar(cp)
    ensures AllScalars(cs + [cp])
    ensures EncodeAll8(cs + [cp]) == EncodeAll8(cs) + EncodeUtf8(cp)
  {
    hide EncodeUtf8;
    if cs != [] {
      EncodeSnoc(cs[1..], cp);
      assert (cs + [cp])[1..] == cs[1..] + [cp];
    } else {
      assert [cp][1..] == [];
    }
  }

  method Utf8ToCp437(s: seq<Byte>) returns (out: seq<Byte>)
    ensures out == NarrowAll(LoosePoints(s, 0))
  {
    var rev := ReverseTable();
    out := [];
    var i := 0;
    while i < |s|
      invariant 0 <= i <= |s|
      invariant out + NarrowAll(LoosePoints(s, i)) == NarrowAll(LoosePoints(s, 0))
    {
      hide ByteOf, InTable, Bits2, Bits3, Bits4;
      var b := s[i];
      var cp: int := 0;
      var consumed := 1;
      if b < 0x80 {
        cp := b;
      } else if b / 32 == 6 && i + 1 < |s| {
        cp := Bits2(b, s[i + 1]);
        consumed := 2;
      } else if b / 16 == 14 && i + 2 < |s| {
        cp := Bits3(b, s[i + 1], s[i + 2]);
        consumed := 3;
      } else if b / 8 == 30 && i + 3 < |s| {
        cp := Bits4(b, s[i + 1], s[i + 2], s[i + 3]);
        consumed := 4;
      } else {
        cp := 0x3F;
      }
      assert cp == LoosePoint(s, i) && consumed == LooseWidth(s, i);
      ghost var before, rest := out, LoosePoints(s, i + consumed);
      NonNegative(s, i);
      if cp < 0x80 {
        out := out + [cp];
      } else if cp in rev {
        out := out + [rev[cp]];
      } else {
        out := out + [0x3F];
      }
      assert out == before + [Narrow(cp)];
      assert ([cp] + rest)[1..] == rest;
      Append(before, [Narrow(cp)], NarrowAll(rest));
      i := i + consumed;
    }
  }

  lemma NonNegative(s: seq<Byte>, i: nat)
    requires i < |s|
    ensures LoosePoint(s, i) >= 0
  {}

  // ----- main results

  /** On a character of well-formed UTF-8 both decoders read the same code point. */
  lemma LooseReadsCharacters(s: seq<Byte>, i: nat, n: nat)
    requires i < |s| && i + n <= |s| && Utf8Char(s[i..i + n])
    ensures LooseWidth(s, i) == n && LoosePoint(s, i) == Code8(s, i)
  {
    BytesAt(s, i, s[i..i + n]);
  }

  lemma {:induction false} LooseReadsWellFormed(s: seq<Byte>, i: nat)
    requires i <= |s| && WellFormedUtf8(s[i..])
    ensures LoosePoints(s, i) == Scalars8(s, i)
    decreases |s| - i
  {
    hide Code8, Width8, EncodeUtf8, Utf8Char, LoosePoint, LooseWidth, WellFormedUtf8;
    if i < |s| {
      var n := WellFormedStep(s, i);
      EncodedIsChar(Code8(s, i));
      LooseReadsCharacters(s, i, n);
      LooseReadsWellFormed(s, i + n);
    }
  }

  /** What a CP437 text becomes: well-formed UTF-8 that both decoders read as its code points. */
  lemma EncodedPoints(bytes: seq<Byte>)
    ensures var s := EncodeAll8(Points(bytes));
      WellFormedUtf8(s) && Scalars8(s, 0) == Points(bytes) && LoosePoints(s, 0) == Points(bytes)
  {
    var cs := Points(bytes);
    EncodedIsWellFormed8(cs);
    DecodeAll8(cs, EncodeAll8(cs), 0);
    LooseReadsWellFormed(EncodeAll8(cs), 0);
  }

  lemma {:induction false} NarrowUndoesPoints(bytes: seq<Byte>)
    ensures NarrowAll(Points(bytes)) == bytes
  {
    hide ByteOf, Upper;
    if bytes != [] {
      NarrowUndoesPoints(bytes[1..]);
      if bytes[0] >= 0x80 {
        UpperBack(bytes[0] - 0x80);
      }
      assert Points(bytes)[1..] == Points(bytes[1..]);
    }
  }

  /** `Utf8ToCp437` undoes `Cp437ToUtf8` on every byte string. */
  lemma Cp437RoundTrip(bytes: seq<Byte>)
    ensures NarrowAll(LoosePoints(EncodeAll8(Points(bytes)), 0)) == bytes
  {
    EncodedPoints(bytes);
    NarrowUndoesPoints(bytes);
  }

  /** The UTF-8 of a CP437 text decodes to exactly one UTF-16 unit a byte. */
  lemma OneUnitPerByte(bytes: seq<Byte>)
    ensures Utf8ToUtf16(EncodeAll8(Points(bytes))) == Points(bytes)
  {
    EncodedPoints(bytes);
    SingleUnits(bytes);
  }

  lemma {:induction false} SingleUnits(bytes: seq<Byte>)
    ensures EncodeAll16(Points(bytes)) == Points(bytes)
  {
    hide Upper;
    if bytes != [] {
      SingleUnits(bytes[1..]);
      if bytes[0] >= 0x80 {
        UpperBack(bytes[0] - 0x80);
      }
      assert Points(bytes)[1..] == Points(bytes[1..]);
    }
  }

  predicate InRepertoire(cp: int) { 0 <= cp < 0x80 || InTable(cp) }

  lemma {:induction false} PointsUndoNarrow(cs: seq<int>)
    requires forall k | 0 <= k < |cs| :: InRepertoire(cs[k])
    ensures Points(NarrowAll(cs)) == cs
  {
    hide ByteOf, Upper;
    if cs != [] {
      PointsUndoNarrow(cs[1..]);
      if !(0 <= cs[0] < 0x80) {
        TablesAgree(cs[0]);
      }
      assert Point(Narrow(cs[0])) == cs[0];
      assert NarrowAll(cs)[1..] == NarrowAll(cs[1..]);
    }
  }

  /** Narrowing to CP437 and widening again is the identity exactly on well-formed text whose
      characters CP437 has. */
  lemma WideningRoundTrip(s: seq<Byte>)
    ensures EncodeAll8(Points(NarrowAll(LoosePoints(s, 0)))) == s
       <==> WellFormedUtf8(s) && forall k | 0 <= k < |Scalars8(s, 0)| :: InRepertoire(Scalars8(s, 0)[k])
  {
    hide ByteOf, Upper, WellFormedUtf8;
    var cs := Scalars8(s, 0);
    assert s[0..] == s;
    var bytes := NarrowAll(LoosePoints(s, 0));
    if EncodeAll8(Points(bytes)) == s {
      EncodedPoints(bytes);
      forall k | 0 <= k < |cs|
        ensures InRepertoire(cs[k])
      {
        assert cs[k] == Point(bytes[k]);
        if bytes[k] >= 0x80 { UpperInTable(bytes[k] - 0x80); }
      }
    }
    if WellFormedUtf8(s) && forall k | 0 <= k < |cs| :: InRepertoire(cs[k]) {
      LooseReadsWellFormed(s, 0);
      PointsUndoNarrow(cs);
      WellFormedIsEncoded8(s, 0);
    }
  }
}

/** The UTF-16 / UTF-8 codecs at the ABI boundary.

    Both directions are total: malformed input is repaired with U+FFFD.  Well-formedness is
    defined on its own, from section 4 of RFC 3629 (UTF-8) and section 2 of RFC 2781 (UTF-16).

    Bytes, 16-bit units and code points are bounded integers.  Shifting right and masking are
    division and remainder by a power of two, and `|` of disjoint bit fields is a sum. */
module Charset {

  type Byte = b: int | 0 <= b < 256

  type Unit = u: int | 0 <= u < 0x10000

  const REPLACEMENT: int := 0xFFFD

  predicate IsHigh(u: int) { 0xD800 <= u <= 0xDBFF }

  predicate IsLow(u: int) { 0xDC00 <= u <= 0xDFFF }

  predicate IsScalar(cp: int) { 0 <= cp <= 0x10FFFF && !IsHigh(cp) && !IsLow(cp) }

  // ----- one code point to code units

  function HighSurrogate(v: int): Unit
    requires 0 <= v < 0x10_0000
  {
    0xD800 + v / 0x400
  }

  function LowSurrogate(v: int): Unit
    requires 0 <= v
  { 0xDC00 + v % 0x400 }

  function EncodeUtf16(cp: int): (r: seq<Unit>)
    requires 0 <= cp <= 0x10FFFF
    ensures 1 <= |r| <= 2
  {
    if cp < 0x10000 then [cp]
    else [HighSurrogate(cp - 0x10000), LowSurrogate(cp - 0x10000)]
  }

  function EncodeUtf8(cp: int): (r: seq<Byte>)
    requires 0 <= cp <= 0x10FFFF
    ensures 1 <= |r| <= 4
  {
    if cp < 0x80 then [cp]
    else if cp < 0x800 then [0xC0 + cp / 64, 0x80 + cp % 64]
    else if cp < 0x10000 then
      [0xE0 + cp / 4096, 0x80 + cp / 64 % 64, 0x80 + cp % 64]
    else
      [0xF0 + cp / 262144, 0x80 + cp / 4096 % 64,
       0x80 + cp / 64 % 64, 0x80 + cp % 64]
  }

  // ----- code units to one code point: a unit past the end of the text reads as 0, which is
  // neither a surrogate nor a continuation byte

  function UnitAt(u: seq<Unit>, i: nat): int { if i < |u| then u[i] else 0 }

  function ByteAt(s: seq<Byte>, i: nat): int { if i < |s| then s[i] else 0 }

  function Pair(hi: int, lo: int): int { 0x10000 + (hi - 0xD800) * 0x400 + (lo - 0xDC00) }

  /** The code point that starts with the unit `cp`, which `lo` follows. */
  function Decode16(cp: int, lo: int): int {
    if IsHigh(cp) then (if IsLow(lo) then Pair(cp, lo) else REPLACEMENT)
    else if IsLow(cp) then REPLACEMENT
    else cp
  }

  function Length16(cp: int, lo: int): nat { if IsHigh(cp) && IsLow(lo) then 2 else 1 }

  predicate IsContinuation(b: int) { b / 64 == 2 }

  function Bits2(c: int, b1: int): int { c % 32 * 64 + b1 % 64 }

  function Bits3(c: int, b1: int, b2: int): int { c % 16 * 4096 + b1 % 64 * 64 + b2 % 64 }

  function Bits4(c: int, b1: int, b2: int, b3: int): int {
    c % 8 * 262144 + b1 % 64 * 4096 + b2 % 64 * 64 + b3 % 64
  }

  /** How many bytes the sequence that starts with `c` takes: as many as its leading bits announce
      if they are all there, otherwise one. */
  function Length8(c: int, b1: int, b2: int, b3: int): nat {
    if c < 0x80 then 1
    else if c / 32 == 6 && IsContinuation(b1) then 2
    else if c / 16 == 14 && IsContinuation(b1) && IsContinuation(b2) then 3
    else if c / 8 == 30 && IsContinuation(b1) && IsContinuation(b2) && IsContinuation(b3) then 4
    else 1
  }

  /** The code point that sequence stands for: overlong forms, surrogates and values above
      U+10FFFF are repaired. */
  function Decode8(c: int, b1: int, b2: int, b3: int): int {
    if c < 0x80 then c
    else if c / 32 == 6 && IsContinuation(b1) then
      if Bits2(c, b1) < 0x80 then REPLACEMENT else Bits2(c, b1)
    else if c / 16 == 14 && IsContinuation(b1) && IsContinuation(b2) then
      var cp := Bits3(c, b1, b2);
      if cp < 0x800 || (0xD800 <= cp <= 0xDFFF) then REPLACEMENT else cp
    else if c / 8 == 30 && IsContinuation(b1) && IsContinuation(b2) && IsContinuation(b3) then
      var cp := Bits4(c, b1, b2, b3);
      if cp < 0x10000 || cp > 0x10FFFF then REPLACEMENT else cp
    else REPLACEMENT
  }

  function Code16(u: seq<Unit>, i: nat): (cp: int)
    ensures IsScalar(cp)
  {
    Decode16(UnitAt(u, i), UnitAt(u, i + 1))
  }

  function Width16(u: seq<Unit>, i: nat): (n: nat)
    requires i < |u|
    ensures 1 <= n <= |u| - i
  {
    Length16(UnitAt(u, i), UnitAt(u, i + 1))
  }

  function Code8(s: seq<Byte>, i: nat): (cp: int)
    ensures IsScalar(cp)
  {
    Decode8(ByteAt(s, i), ByteAt(s, i + 1), ByteAt(s, i + 2), ByteAt(s, i + 3))
  }

  function Width8(s: seq<Byte>, i: nat): (n: nat)
    requires i < |s|
    ensures 1 <= n <= |s| - i
  {
    Length8(ByteAt(s, i), ByteAt(s, i + 1), ByteAt(s, i + 2), ByteAt(s, i + 3))
  }

  // ----- whole texts, from position `i` on

  ghost predicate AllScalars(cs: seq<int>) { forall k | 0 <= k < |cs| :: IsScalar(cs[k]) }

  function Scalars16(u: seq<Unit>, i: nat): (cs: seq<int>)
    requires i <= |u|
    ensures AllScalars(cs)
    decreases |u| - i
  {
    if i == |u| then [] else [Code16(u, i)] + Scalars16(u, i + Width16(u, i))
  }

  function Scalars8(s: seq<Byte>, i: nat): (cs: seq<int>)
    requires i <= |s|
    ensures AllScalars(cs)
    decreases |s| - i
  {
    if i == |s| then [] else [Code8(s, i)] + Scalars8(s, i + Width8(s, i))
  }

  function EncodeAll8(cs: seq<int>): seq<Byte>
    requires AllScalars(cs)
  {
    if cs == [] then [] else EncodeUtf8(cs[0]) + EncodeAll8(cs[1..])
  }

  function EncodeAll16(cs: seq<int>): seq<Unit>
    requires AllScalars(cs)
  {
    if cs == [] then [] else EncodeUtf16(cs[0]) + EncodeAll16(cs[1..])
  }

  function Utf16ToUtf8(u: seq<Unit>): seq<Byte> { EncodeAll8(Scalars16(u, 0)) }

  function Utf8ToUtf16(s: seq<Byte>): seq<Unit> { EncodeAll16(Scalars8(s, 0)) }

  lemma Unroll16(u: seq<Unit>, i: nat)
    requires i < |u|
    ensures EncodeAll8(Scalars16(u, i)) == EncodeUtf8(Code16(u, i)) + EncodeAll8(Scalars16(u, i + Width16(u, i)))
  {
    var rest := Scalars16(u, i + Width16(u, i));
    assert ([Code16(u, i)] + rest)[1..] == rest;
  }

  lemma Unroll8(s: seq<Byte>, i: nat)
    requires i < |s|
    ensures EncodeAll16(Scalars8(s, i)) == EncodeUtf16(Code8(s, i)) + EncodeAll16(Scalars8(s, i + Width8(s, i)))
  {
    var rest := Scalars8(s, i + Width8(s, i));
    assert ([Code8(s, i)] + rest)[1..] == rest;
  }

  lemma Append<T>(a: seq<T>, b: seq<T>, c: seq<T>)
    ensures (a + b) + c == a + (b + c)
  {}

  // ----- the codecs: each turn of a loop reads one code point and pushes its code units

  method ReadUtf16(units: seq<Unit>, i: nat) returns (cp: int, adv: nat)
    requires i < |units|
    ensures cp == Code16(units, i) && adv == Width16(units, i)
  {
    cp, adv := units[i], 1;
    if 0xD800 <= cp <= 0xDBFF {
      if i + 1 < |units| {
        var lo := units[i + 1];
        if 0xDC00 <= lo <= 0xDFFF {
          cp := 0x10000 + (cp - 0xD800) * 0x400 + (lo - 0xDC00);
          adv := 2;
        } else {
          cp := 0xFFFD;
        }
      } else {
        cp := 0xFFFD;
      }
    } else if 0xDC00 <= cp <= 0xDFFF {
      cp := 0xFFFD;
    }
  }

  method ReadUtf8(utf8: seq<Byte>, i: nat) returns (cp: int, adv: nat)
    requires i < |utf8|
    ensures cp == Code8(utf8, i) && adv == Width8(utf8, i)
  {
    var c: int := utf8[i];
    cp, adv := 0xFFFD, 1;
    if c < 0x80 {
      cp := c;
    } else if c / 32 == 6 && i + 1 < |utf8| && utf8[i + 1] / 64 == 2 {
      cp := c % 32 * 64 + ByteAt(utf8, i + 1) % 64;
      adv := 2;
      if cp < 0x80 { cp := 0xFFFD; }
    } else if c / 16 == 14 && i + 2 < |utf8| && utf8[i + 1] / 64 == 2 && utf8[i + 2] / 64 == 2 {
      cp := c % 16 * 4096 + ByteAt(utf8, i + 1) % 64 * 64 + ByteAt(utf8, i + 2) % 64;
      adv := 3;
      if cp < 0x800 || (0xD800 <= cp <= 0xDFFF) { cp := 0xFFFD; }
    } else if c / 8 == 30 && i + 3 < |utf8| &&
              utf8[i + 1] / 64 == 2 && utf8[i + 2] / 64 == 2 && utf8[i + 3] / 64 == 2 {
      cp := c % 8 * 262144 + ByteAt(utf8, i + 1) % 64 * 4096 + ByteAt(utf8, i + 2) % 64 * 64 + ByteAt(utf8, i + 3) % 64;
      adv := 4;
      if cp < 0x10000 || cp > 0x10FFFF { cp := 0xFFFD; }
    }
  }

  method PushUtf8(cp: int, buffer: seq<Byte>) returns (out: seq<Byte>)
    requires 0 <= cp <= 0x10FFFF
    ensures out == buffer + EncodeUtf8(cp)
  {
    out := buffer;
    if cp < 0x80 {
      out := out + [cp];
    } else if cp < 0x800 {
      out := out + [0xC0 + cp / 64];
      out := out + [0x80 + cp % 64];
    } else if cp < 0x10000 {
      out := out + [0xE0 + cp / 4096];
      out := out + [0x80 + cp / 64 % 64];
      out := out + [0x80 + cp % 64];
    } else {
      out := out + [0xF0 + cp / 262144];
      out := out + [0x80 + cp / 4096 % 64];
      out := out + [0x80 + cp / 64 % 64];
      out := out + [0x80 + cp % 64];
    }
  }

  method PushUtf16(cp: int, buffer: seq<Unit>) returns (out: seq<Unit>)
    requires 0 <= cp <= 0x10FFFF
    ensures out == buffer + EncodeUtf16(cp)
  {
    out := buffer;
    if cp < 0x10000 {
      out := out + [cp];
    } else {
      var v := cp - 0x10000;
      out := out + [0xD800 + v / 0x400];
      out := out + [0xDC00 + v % 0x400];
    }
  }

  method ConvertUtf16leToUtf8(units: seq<Unit>) returns (out: seq<Byte>)
    ensures out == Utf16ToUtf8(units)
  {
    out := [];
    var i := 0;
    while i < |units|
      invariant 0 <= i <= |units|
      invariant out + EncodeAll8(Scalars16(units, i)) == Utf16ToUtf8(units)
    {
      hide Scalars16, EncodeAll8, EncodeUtf8, Code16, Width16;
      var cp, adv := ReadUtf16(units, i);
      Unroll16(units, i);
      Append(out, EncodeUtf8(cp), EncodeAll8(Scalars16(units, i + adv)));
      out := PushUtf8(cp, out);
      i := i + adv;
    }
  }

  method ConvertUtf8ToUtf16le(utf8: seq<Byte>) returns (out: seq<Unit>)
    ensures out == Utf8ToUtf16(utf8)
  {
    out := [];
    var i := 0;
    while i < |utf8|
      invariant 0 <= i <= |utf8|
      invariant out + EncodeAll16(Scalars8(utf8, i)) == Utf8ToUtf16(utf8)
    {
      hide Scalars8, EncodeAll16, EncodeUtf16, Code8, Width8;
      var cp, adv := ReadUtf8(utf8, i);
      Unroll8(utf8, i);
      Append(out, EncodeUtf16(cp), EncodeAll16(Scalars8(utf8, i + adv)));
      out := PushUtf16(cp, out);
      i := i + adv;
    }
  }
}

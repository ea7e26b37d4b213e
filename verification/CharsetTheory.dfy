/** What the two codecs mean: round trips, repairs, and well-formedness as the RFCs define it. */
module CharsetTheory {
  import opened Charset

  // ----- UTF-8 as section 4 of RFC 3629 defines it

  predicate Tail(b: Byte) { 0x80 <= b <= 0xBF }

  predicate Utf8Char(c: seq<Byte>) {
    || (|c| == 1 && c[0] <= 0x7F)
    || (|c| == 2 && 0xC2 <= c[0] <= 0xDF && Tail(c[1]))
    || (|c| == 3 && Tail(c[2]) && (
          || (c[0] == 0xE0 && 0xA0 <= c[1] <= 0xBF)
          || (0xE1 <= c[0] <= 0xEC && Tail(c[1]))
          || (c[0] == 0xED && 0x80 <= c[1] <= 0x9F)
          || (0xEE <= c[0] <= 0xEF && Tail(c[1]))))
    || (|c| == 4 && Tail(c[2]) && Tail(c[3]) && (
          || (c[0] == 0xF0 && 0x90 <= c[1] <= 0xBF)
          || (0xF1 <= c[0] <= 0xF3 && Tail(c[1]))
          || (c[0] == 0xF4 && 0x80 <= c[1] <= 0x8F)))
  }

  predicate StartsWithChar(s: seq<Byte>, n: nat) { n <= |s| && Utf8Char(s[..n]) }

  predicate WellFormedUtf8(s: seq<Byte>)
    decreases |s|
  {
    s == [] || exists n | 1 <= n <= 4 :: StartsWithChar(s, n) && WellFormedUtf8(s[n..])
  }

  // ----- UTF-16 as section 2 of RFC 2781 defines it, unit by unit

  predicate Unpaired(u: seq<Unit>, i: nat)
    requires i < |u|
  {
    || (IsHigh(u[i]) && !(i + 1 < |u| && IsLow(u[i + 1])))
    || (IsLow(u[i]) && !(i > 0 && IsHigh(u[i - 1])))
  }

  predicate WellFormedUtf16(u: seq<Unit>) { forall i | 0 <= i < |u| :: !Unpaired(u, i) }

  /** `u` with every unpaired surrogate replaced by U+FFFD. */
  function Repaired(u: seq<Unit>): (r: seq<Unit>)
    ensures |r| == |u|
  {
    seq(|u|, i requires 0 <= i < |u| => if Unpaired(u, i) then 0xFFFD else u[i])
  }

  // ----- the bits of one code point

  /** Section 2.1 of RFC 2781: ten bits in each surrogate. */
  lemma SurrogateBits(cp: int, y: int, x: int)
    requires 0 <= y < 1024 && 0 <= x < 1024 && cp == 0x10000 + 1024 * y + x
    ensures EncodeUtf16(cp) == [0xD800 + y, 0xDC00 + x] && Pair(0xD800 + y, 0xDC00 + x) == cp
  {}

  /** Section 3 of RFC 3629: six bits in each byte after the first. */
  lemma Utf8Bits(cp: int, w: int, z: int, y: int, x: int)
    requires 0 <= x < 64 && 0 <= y < 64 && 0 <= z < 64 && 0 <= w
    requires cp == 262144 * w + 4096 * z + 64 * y + x && cp <= 0x10FFFF
    ensures cp < 0x80 ==> EncodeUtf8(cp) == [cp]
    ensures 0x80 <= cp < 0x800 ==> EncodeUtf8(cp) == [0xC0 + y, 0x80 + x]
    ensures 0x800 <= cp < 0x10000 ==> EncodeUtf8(cp) == [0xE0 + z, 0x80 + y, 0x80 + x]
    ensures 0x10000 <= cp ==> EncodeUtf8(cp) == [0xF0 + w, 0x80 + z, 0x80 + y, 0x80 + x]
  {
    assert cp / 64 == 4096 * w + 64 * z + y && cp / 4096 == 64 * w + z && cp / 262144 == w;
  }

  // ----- one code point: encoding and decoding undo each other

  lemma Split64(q: int, r: int)
    requires 0 <= r < 64
    ensures (q * 64 + r) / 64 == q && (q * 64 + r) % 64 == r
  {}

  lemma DivDiv(x: int)
    requires 0 <= x
    ensures x / 4096 == x / 64 / 64 && x / 262144 == x / 4096 / 64
  {}

  lemma IntoOne(cp: int, w: Byte, b1: int, b2: int, b3: int)
    requires cp < 0x80 && w == cp
    ensures Decode8(w, b1, b2, b3) == cp && Length8(w, b1, b2, b3) == 1
  {}

  lemma IntoTwo(cp: int, w: Byte, x: Byte, b2: int, b3: int)
    requires 0x80 <= cp < 0x800 && w == 0xC0 + cp / 64 && x == 0x80 + cp % 64
    ensures Decode8(w, x, b2, b3) == cp && Length8(w, x, b2, b3) == 2
  {}

  lemma IntoThree(cp: int, w: Byte, x: Byte, y: Byte, b3: int)
    requires 0x800 <= cp < 0x10000 && IsScalar(cp)
    requires w == 0xE0 + cp / 4096 && x == 0x80 + cp / 64 % 64 && y == 0x80 + cp % 64
    ensures Decode8(w, x, y, b3) == cp && Length8(w, x, y, b3) == 3
  {}

  lemma FourFields(cp: int, w: Byte, x: Byte, y: Byte, z: Byte)
    requires 0x10000 <= cp <= 0x10FFFF
    requires w == 0xF0 + cp / 262144 && x == 0x80 + cp / 4096 % 64 && y == 0x80 + cp / 64 % 64 && z == 0x80 + cp % 64
    ensures 0x80 <= w && w / 32 != 6 && w / 16 != 14 && w / 8 == 30
    ensures IsContinuation(x) && IsContinuation(y) && IsContinuation(z) && Bits4(w, x, y, z) == cp
  {
    DivDiv(cp);
    assert w % 8 == cp / 262144 && x % 64 == cp / 4096 % 64 && y % 64 == cp / 64 % 64 && z % 64 == cp % 64;
  }

  lemma IntoFour(cp: int, w: Byte, x: Byte, y: Byte, z: Byte)
    requires 0x10000 <= cp <= 0x10FFFF
    requires w == 0xF0 + cp / 262144 && x == 0x80 + cp / 4096 % 64
    requires y == 0x80 + cp / 64 % 64 && z == 0x80 + cp % 64
    ensures Decode8(w, x, y, z) == cp
    ensures Length8(w, x, y, z) == 4
  {
    DivDiv(cp);
    FourFields(cp, w, x, y, z);
    hide Bits2, Bits3, Bits4, IsContinuation;
  }

  lemma BackOne(w: Byte, b1: int, b2: int, b3: int)
    requires w <= 0x7F
    ensures var cp := Decode8(w, b1, b2, b3); IsScalar(cp) && EncodeUtf8(cp) == [w]
    ensures Length8(w, b1, b2, b3) == 1
  {}

  lemma TwoBits(w: Byte, x: Byte)
    requires Utf8Char([w, x])
    ensures var cp := Bits2(w, x); 0x80 <= cp < 0x800 && w == 0xC0 + cp / 64 && x == 0x80 + cp % 64
    ensures 0x80 <= w && w / 32 == 6 && IsContinuation(x)
  {}

  lemma EncodeTwo(w: Byte, x: Byte)
    requires var cp := Bits2(w, x); 0x80 <= cp < 0x800 && w == 0xC0 + cp / 64 && x == 0x80 + cp % 64
    ensures IsScalar(Bits2(w, x)) && EncodeUtf8(Bits2(w, x)) == [w, x]
  {
    hide Bits2;
  }

  lemma SelectTwo(w: Byte, x: Byte, b2: int, b3: int)
    requires 0x80 <= w && w / 32 == 6 && IsContinuation(x) && Bits2(w, x) >= 0x80
    ensures Decode8(w, x, b2, b3) == Bits2(w, x) && Length8(w, x, b2, b3) == 2
  {
    hide Bits2, Bits3, Bits4, IsContinuation;
  }

  lemma BackTwo(w: Byte, x: Byte, b2: int, b3: int)
    requires Utf8Char([w, x])
    ensures var cp := Decode8(w, x, b2, b3); IsScalar(cp) && EncodeUtf8(cp) == [w, x]
    ensures Length8(w, x, b2, b3) == 2
  {
    hide Decode8, Length8, EncodeUtf8, Bits2, IsContinuation, IsScalar;
    TwoBits(w, x);
    SelectTwo(w, x, b2, b3);
    EncodeTwo(w, x);
  }

  lemma ThreeBits(w: Byte, x: Byte, y: Byte)
    requires Utf8Char([w, x, y])
    ensures var cp := Bits3(w, x, y);
      0x800 <= cp < 0x10000 && IsScalar(cp)
      && w == 0xE0 + cp / 4096 && x == 0x80 + cp / 64 % 64 && y == 0x80 + cp % 64
    ensures 0x80 <= w && w / 32 != 6 && w / 16 == 14 && IsContinuation(x) && IsContinuation(y)
  {
    var a, b, c := w % 16, x % 64, y % 64;
    assert a == w - 0xE0 && b == x - 0x80 && c == y - 0x80;
    Split64(a * 64 + b, c);
    Split64(a, b);
    DivDiv(Bits3(w, x, y));
  }

  lemma EncodeThree(w: Byte, x: Byte, y: Byte)
    requires var cp := Bits3(w, x, y);
      0x800 <= cp < 0x10000 && w == 0xE0 + cp / 4096 && x == 0x80 + cp / 64 % 64 && y == 0x80 + cp % 64
    ensures EncodeUtf8(Bits3(w, x, y)) == [w, x, y]
  {
    hide Bits3;
  }

  lemma SelectThree(w: Byte, x: Byte, y: Byte, b3: int)
    requires 0x80 <= w && w / 32 != 6 && w / 16 == 14 && IsContinuation(x) && IsContinuation(y)
    requires Bits3(w, x, y) >= 0x800 && IsScalar(Bits3(w, x, y))
    ensures Decode8(w, x, y, b3) == Bits3(w, x, y) && Length8(w, x, y, b3) == 3
  {
    hide Bits2, Bits3, Bits4, IsContinuation;
  }

  lemma BackThree(w: Byte, x: Byte, y: Byte, b3: int)
    requires Utf8Char([w, x, y])
    ensures var cp := Decode8(w, x, y, b3); IsScalar(cp) && EncodeUtf8(cp) == [w, x, y]
    ensures Length8(w, x, y, b3) == 3
  {
    hide Decode8, Length8, EncodeUtf8, Bits3, IsContinuation, IsScalar;
    ThreeBits(w, x, y);
    SelectThree(w, x, y, b3);
    EncodeThree(w, x, y);
  }

  lemma FourBits(w: Byte, x: Byte, y: Byte, z: Byte)
    requires Utf8Char([w, x, y, z])
    ensures var cp := Bits4(w, x, y, z);
      0x10000 <= cp <= 0x10FFFF
      && w == 0xF0 + cp / 262144 && x == 0x80 + cp / 4096 % 64
      && y == 0x80 + cp / 64 % 64 && z == 0x80 + cp % 64
    ensures 0x80 <= w && w / 32 != 6 && w / 16 != 14 && w / 8 == 30
    ensures IsContinuation(x) && IsContinuation(y) && IsContinuation(z)
  {
    var a, b, c, d := w % 8, x % 64, y % 64, z % 64;
    assert a == w - 0xF0 && b == x - 0x80 && c == y - 0x80 && d == z - 0x80;
    Split64((a * 64 + b) * 64 + c, d);
    Split64(a * 64 + b, c);
    Split64(a, b);
    DivDiv(Bits4(w, x, y, z));
  }

  lemma EncodeFour(w: Byte, x: Byte, y: Byte, z: Byte)
    requires var cp := Bits4(w, x, y, z);
      0x10000 <= cp <= 0x10FFFF
      && w == 0xF0 + cp / 262144 && x == 0x80 + cp / 4096 % 64
      && y == 0x80 + cp / 64 % 64 && z == 0x80 + cp % 64
    ensures IsScalar(Bits4(w, x, y, z)) && EncodeUtf8(Bits4(w, x, y, z)) == [w, x, y, z]
  {
    hide Bits4;
  }

  lemma SelectFour(w: Byte, x: Byte, y: Byte, z: Byte)
    requires 0x80 <= w && w / 32 != 6 && w / 16 != 14 && w / 8 == 30
    requires IsContinuation(x) && IsContinuation(y) && IsContinuation(z) && 0x10000 <= Bits4(w, x, y, z) <= 0x10FFFF
    ensures Decode8(w, x, y, z) == Bits4(w, x, y, z) && Length8(w, x, y, z) == 4
  {
    hide Bits2, Bits3, Bits4, IsContinuation;
  }

  lemma BackFour(w: Byte, x: Byte, y: Byte, z: Byte)
    requires Utf8Char([w, x, y, z])
    ensures var cp := Decode8(w, x, y, z); IsScalar(cp) && EncodeUtf8(cp) == [w, x, y, z]
    ensures Length8(w, x, y, z) == 4
  {
    hide Decode8, Length8, EncodeUtf8, Bits4, IsContinuation, IsScalar;
    FourBits(w, x, y, z);
    SelectFour(w, x, y, z);
    EncodeFour(w, x, y, z);
  }

  lemma PairBits(v: int)
    requires 0 <= v < 0x10_0000
    ensures IsHigh(HighSurrogate(v)) && IsLow(LowSurrogate(v))
    ensures Pair(HighSurrogate(v), LowSurrogate(v)) == v + 0x10000
  {}

  lemma IntoPair(cp: int)
    requires 0x10000 <= cp <= 0x10FFFF
    ensures var hi, lo := HighSurrogate(cp - 0x10000), LowSurrogate(cp - 0x10000);
      Decode16(hi, lo) == cp && Length16(hi, lo) == 2
  {
    PairBits(cp - 0x10000);
    hide HighSurrogate, LowSurrogate, Pair;
  }

  lemma BackBits(hi: Unit, lo: Unit)
    requires IsHigh(hi) && IsLow(lo)
    ensures var cp := Pair(hi, lo);
      0x10000 <= cp <= 0x10FFFF && hi == HighSurrogate(cp - 0x10000) && lo == LowSurrogate(cp - 0x10000)
  {}

  lemma BackPair(hi: Unit, lo: Unit)
    requires IsHigh(hi) && IsLow(lo)
    ensures var cp := Decode16(hi, lo); IsScalar(cp) && EncodeUtf16(cp) == [hi, lo]
  {
    BackBits(hi, lo);
    hide HighSurrogate, LowSurrogate, Pair;
  }

  lemma IntoUnit(cp: int, u: Unit, lo: int)
    requires cp < 0x10000 && IsScalar(cp) && u == cp
    ensures Decode16(u, lo) == cp && Length16(u, lo) == 1
  {}

  lemma EncodedIsChar(cp: int)
    requires IsScalar(cp)
    ensures Utf8Char(EncodeUtf8(cp))
  {}

  lemma SliceAt<T>(s: seq<T>, i: nat, e: seq<T>)
    requires i + |e| <= |s| && s[i..i + |e|] == e
    ensures forall k: nat {:trigger e[k]} | k < |e| :: s[i + k] == e[k]
  {
    forall k: nat | k < |e|
      ensures s[i + k] == e[k]
    {
      assert s[i..i + |e|][k] == s[i + k];
    }
  }

  /** `e` stands at position `i` of `s`: its bytes are the ones `Code8` and `Width8` look at. */
  lemma BytesAt(s: seq<Byte>, i: nat, e: seq<Byte>)
    requires 1 <= |e| <= 4 && i + |e| <= |s| && s[i..i + |e|] == e
    ensures ByteAt(s, i) == e[0] && (|e| > 1 ==> ByteAt(s, i + 1) == e[1])
    ensures (|e| > 2 ==> ByteAt(s, i + 2) == e[2]) && (|e| > 3 ==> ByteAt(s, i + 3) == e[3])
  {
    SliceAt(s, i, e);
    assert s[i + 0] == e[0];
  }

  lemma DecodeEncoded8(cp: int, b1: int, b2: int, b3: int)
    requires IsScalar(cp)
    requires var e := EncodeUtf8(cp);
      && (|e| > 1 ==> b1 == e[1]) && (|e| > 2 ==> b2 == e[2]) && (|e| > 3 ==> b3 == e[3])
    ensures var c := EncodeUtf8(cp)[0];
      Decode8(c, b1, b2, b3) == cp && Length8(c, b1, b2, b3) == |EncodeUtf8(cp)|
  {
    hide Decode8, Length8;
    var e := EncodeUtf8(cp);
    if |e| == 1 {
      IntoOne(cp, e[0], b1, b2, b3);
    } else if |e| == 2 {
      IntoTwo(cp, e[0], e[1], b2, b3);
    } else if |e| == 3 {
      IntoThree(cp, e[0], e[1], e[2], b3);
    } else {
      IntoFour(cp, e[0], e[1], e[2], e[3]);
    }
  }

  lemma EncodeDecoded8(e: seq<Byte>, b1: int, b2: int, b3: int)
    requires Utf8Char(e)
    requires && (|e| > 1 ==> b1 == e[1]) && (|e| > 2 ==> b2 == e[2]) && (|e| > 3 ==> b3 == e[3])
    ensures var c := e[0];
      IsScalar(Decode8(c, b1, b2, b3)) && EncodeUtf8(Decode8(c, b1, b2, b3)) == e && Length8(c, b1, b2, b3) == |e|
  {
    hide Decode8, Length8, EncodeUtf8, IsScalar;
    if |e| == 1 {
      BackOne(e[0], b1, b2, b3);
    } else if |e| == 2 {
      BackTwo(e[0], e[1], b2, b3);
    } else if |e| == 3 {
      BackThree(e[0], e[1], e[2], b3);
    } else {
      BackFour(e[0], e[1], e[2], e[3]);
    }
  }

  lemma EncodeAt8(cp: int, s: seq<Byte>, i: nat)
    requires IsScalar(cp) && i + |EncodeUtf8(cp)| <= |s| && s[i..i + |EncodeUtf8(cp)|] == EncodeUtf8(cp)
    ensures Code8(s, i) == cp && Width8(s, i) == |EncodeUtf8(cp)|
  {
    hide EncodeUtf8, Decode8, Length8, ByteAt;
    BytesAt(s, i, EncodeUtf8(cp));
    DecodeEncoded8(cp, ByteAt(s, i + 1), ByteAt(s, i + 2), ByteAt(s, i + 3));
  }

  lemma DecodeAt8(s: seq<Byte>, i: nat, n: nat)
    requires i + n <= |s| && Utf8Char(s[i..i + n])
    ensures Width8(s, i) == n && EncodeUtf8(Code8(s, i)) == s[i..i + n]
  {
    hide EncodeUtf8, Decode8, Length8, ByteAt, IsScalar;
    BytesAt(s, i, s[i..i + n]);
    EncodeDecoded8(s[i..i + n], ByteAt(s, i + 1), ByteAt(s, i + 2), ByteAt(s, i + 3));
  }

  lemma EncodeAt16(cp: int, u: seq<Unit>, i: nat)
    requires IsScalar(cp) && i + |EncodeUtf16(cp)| <= |u| && u[i..i + |EncodeUtf16(cp)|] == EncodeUtf16(cp)
    ensures Code16(u, i) == cp && Width16(u, i) == |EncodeUtf16(cp)|
  {
    hide HighSurrogate, LowSurrogate, Decode16, Length16;
    var e := EncodeUtf16(cp);
    SliceAt(u, i, e);
    assert u[i + 0] == e[0];
    if |e| == 2 {
      assert u[i + 1] == e[1];
      IntoPair(cp);
    } else {
      IntoUnit(cp, u[i], UnitAt(u, i + 1));
    }
  }

  // ----- whole texts

  lemma {:induction false} DecodeAll8(cs: seq<int>, s: seq<Byte>, i: nat)
    requires AllScalars(cs) && i <= |s| && s[i..] == EncodeAll8(cs)
    ensures Scalars8(s, i) == cs
    decreases |cs|
  {
    hide EncodeUtf8, Code8, Width8;
    if cs != [] {
      var e := EncodeUtf8(cs[0]);
      assert s[i..][..|e|] == e && s[i..][|e|..] == EncodeAll8(cs[1..]);
      assert s[i..i + |e|] == e && s[i + |e|..] == EncodeAll8(cs[1..]);
      EncodeAt8(cs[0], s, i);
      DecodeAll8(cs[1..], s, i + |e|);
    }
  }

  lemma {:induction false} DecodeAll16(cs: seq<int>, u: seq<Unit>, i: nat)
    requires AllScalars(cs) && i <= |u| && u[i..] == EncodeAll16(cs)
    ensures Scalars16(u, i) == cs
    decreases |cs|
  {
    hide EncodeUtf16, Code16, Width16;
    if cs != [] {
      var e := EncodeUtf16(cs[0]);
      assert u[i..][..|e|] == e && u[i..][|e|..] == EncodeAll16(cs[1..]);
      assert u[i..i + |e|] == e && u[i + |e|..] == EncodeAll16(cs[1..]);
      EncodeAt16(cs[0], u, i);
      DecodeAll16(cs[1..], u, i + |e|);
    }
  }

  lemma {:induction false} EncodedIsWellFormed8(cs: seq<int>)
    requires AllScalars(cs)
    ensures WellFormedUtf8(EncodeAll8(cs))
  {
    if cs != [] {
      var e, rest := EncodeUtf8(cs[0]), EncodeAll8(cs[1..]);
      EncodedIsChar(cs[0]);
      EncodedIsWellFormed8(cs[1..]);
      assert (e + rest)[..|e|] == e && (e + rest)[|e|..] == rest;
      assert StartsWithChar(e + rest, |e|);
    }
  }

  /** The first character of a well-formed text is read as one code point. */
  lemma WellFormedStep(s: seq<Byte>, i: nat) returns (n: nat)
    requires i < |s| && WellFormedUtf8(s[i..])
    ensures 1 <= n <= |s| - i && Width8(s, i) == n && EncodeUtf8(Code8(s, i)) == s[i..i + n]
    ensures WellFormedUtf8(s[i + n..])
  {
    hide Code8, Width8, EncodeUtf8, Utf8Char;
    n :| 1 <= n <= 4 && StartsWithChar(s[i..], n) && WellFormedUtf8(s[i..][n..]);
    assert s[i..][..n] == s[i..i + n] && s[i..][n..] == s[i + n..];
    DecodeAt8(s, i, n);
  }

  lemma {:induction false} WellFormedIsEncoded8(s: seq<Byte>, i: nat)
    requires i <= |s| && WellFormedUtf8(s[i..])
    ensures EncodeAll8(Scalars8(s, i)) == s[i..]
    decreases |s| - i
  {
    hide Code8, Width8, EncodeUtf8, WellFormedUtf8;
    if i < |s| {
      var n := WellFormedStep(s, i);
      WellFormedIsEncoded8(s, i + n);
      var rest := Scalars8(s, i + n);
      assert ([Code8(s, i)] + rest)[1..] == rest;
      assert s[i..] == s[i..i + n] + s[i + n..];
    }
  }

  /** Decoding to UTF-16 and back gives well-formed UTF-8, and gives the text itself exactly when
      the text is well-formed. */
  lemma Utf8RoundTrip(s: seq<Byte>)
    ensures WellFormedUtf8(Utf16ToUtf8(Utf8ToUtf16(s)))
    ensures Utf16ToUtf8(Utf8ToUtf16(s)) == s <==> WellFormedUtf8(s)
  {
    var cs := Scalars8(s, 0);
    DecodeAll16(cs, EncodeAll16(cs), 0);
    EncodedIsWellFormed8(cs);
    if WellFormedUtf8(s) {
      WellFormedIsEncoded8(s, 0);
    }
  }

  /** A second pass changes nothing: the repairs are a normal form. */
  lemma Utf8RepairIsIdempotent(s: seq<Byte>)
    ensures var t := Utf16ToUtf8(Utf8ToUtf16(s)); Utf16ToUtf8(Utf8ToUtf16(t)) == t
  {
    Utf8RoundTrip(s);
    Utf8RoundTrip(Utf16ToUtf8(Utf8ToUtf16(s)));
  }


  // ----- unpaired surrogates

  /** No surrogate pair straddles the end of a code point. */
  lemma UnpairedBoundary(u: seq<Unit>, i: nat, k: nat)
    requires i < |u| && k == i + Width16(u, i) < |u|
    ensures !(IsHigh(u[k - 1]) && IsLow(u[k]))
  {}

  /** The code point at `i` encodes to the units it was read from, or to U+FFFD for an unpaired one. */
  lemma RepairStep(u: seq<Unit>, i: nat)
    requires i < |u| && !(i > 0 && IsHigh(u[i - 1]) && IsLow(u[i]))
    ensures EncodeUtf16(Code16(u, i)) == Repaired(u)[i..i + Width16(u, i)]
  {
    if Width16(u, i) == 2 {
      BackPair(u[i], u[i + 1]);
      assert !Unpaired(u, i) && !Unpaired(u, i + 1);
      assert Repaired(u)[i..i + 2] == [u[i], u[i + 1]];
    } else {
      assert Repaired(u)[i..i + 1] == [Repaired(u)[i]];
    }
  }

  lemma {:induction false} RepairFrom(u: seq<Unit>, i: nat)
    requires i <= |u| && !(0 < i < |u| && IsHigh(u[i - 1]) && IsLow(u[i]))
    ensures EncodeAll16(Scalars16(u, i)) == Repaired(u)[i..]
    decreases |u| - i
  {
    if i < |u| {
      var k, r := i + Width16(u, i), Repaired(u);
      assert r[i..] == r[i..k] + r[k..];
      RepairStep(u, i);
      if k < |u| {
        UnpairedBoundary(u, i, k);
      }
      RepairFrom(u, k);
      hide Code16, Width16, EncodeUtf16, Repaired;
      var rest := Scalars16(u, k);
      assert ([Code16(u, i)] + rest)[1..] == rest;
    }
  }

  /** Encoding to UTF-8 and back replaces every unpaired surrogate, and changes nothing else: it is
      the identity exactly on well-formed UTF-16. */
  lemma Utf16RoundTrip(u: seq<Unit>)
    ensures Utf8ToUtf16(Utf16ToUtf8(u)) == Repaired(u)
    ensures Utf8ToUtf16(Utf16ToUtf8(u)) == u <==> WellFormedUtf16(u)
  {
    var cs := Scalars16(u, 0);
    DecodeAll8(cs, EncodeAll8(cs), 0);
    RepairFrom(u, 0);
    if !WellFormedUtf16(u) {
      var i :| 0 <= i < |u| && Unpaired(u, i);
      assert Repaired(u)[i] == 0xFFFD;
    } else {
      assert Repaired(u) == u;
    }
  }

  /** Whatever the bytes, the decoder produces well-formed UTF-16. */
  lemma DecodedIsWellFormed16(s: seq<Byte>)
    ensures WellFormedUtf16(Utf8ToUtf16(s))
  {
    var cs := Scalars8(s, 0);
    var u := EncodeAll16(cs);
    DecodeAll16(cs, u, 0);
    RepairFrom(u, 0);
    Utf16RoundTrip(u);
    DecodeAll8(cs, EncodeAll8(cs), 0);
  }

  // ----- what the decoder does with malformed bytes

  /** How many bytes a sequence that starts with `b` has, by the table in section 3 of RFC 3629;
      0 if no sequence starts with `b`. */
  function Announced(b: Byte): nat {
    if b <= 0x7F then 1
    else if 0xC0 <= b <= 0xDF then 2
    else if 0xE0 <= b <= 0xEF then 3
    else if 0xF0 <= b <= 0xF7 then 4
    else 0
  }

  /** As many bytes as the first one announces, the others all continuation bytes. */
  predicate Complete(c: seq<Byte>) {
    c != [] && |c| == Announced(c[0]) && forall k | 1 <= k < |c| :: Tail(c[k])
  }

  predicate CompleteAt(s: seq<Byte>, i: nat, n: nat) { i + n <= |s| && Complete(s[i..i + n]) }

  /** One reading of the text at `i`: a complete sequence, or a single byte where there is none.  A
      character stands for itself and everything else for U+FFFD. */
  ghost predicate Reading(s: seq<Byte>, i: nat, n: nat, cp: int) {
    && 1 <= n && i + n <= |s|
    && (CompleteAt(s, i, n) || (n == 1 && forall m: nat :: !CompleteAt(s, i, m)))
    && IsScalar(cp)
    && (if Utf8Char(s[i..i + n]) then EncodeUtf8(cp) == s[i..i + n] else cp == REPLACEMENT)
  }

  /** The text from `i` on, cut into readings without a gap or an overlap, stands for `cs`. */
  ghost predicate Reads(s: seq<Byte>, i: nat, cs: seq<int>)
    decreases |cs|
  {
    if cs == [] then i == |s|
    else exists n | 1 <= n <= 4 :: Reading(s, i, n, cs[0]) && Reads(s, i + n, cs[1..])
  }

  lemma LeadBits(b: Byte)
    ensures b < 0x80 <==> Announced(b) == 1
    ensures b / 32 == 6 <==> Announced(b) == 2
    ensures b / 16 == 14 <==> Announced(b) == 3
    ensures b / 8 == 30 <==> Announced(b) == 4
  {}

  lemma TailBits(b: Byte)
    ensures IsContinuation(b) <==> Tail(b)
  {}

  lemma BadTwo(w: Byte, x: Byte)
    requires Complete([w, x]) && !Utf8Char([w, x])
    ensures Bits2(w, x) < 0x80
  {
    assert Tail([w, x][1]);
  }

  lemma BadThree(w: Byte, x: Byte, y: Byte)
    requires Complete([w, x, y]) && !Utf8Char([w, x, y])
    ensures Bits3(w, x, y) < 0x800 || 0xD800 <= Bits3(w, x, y) <= 0xDFFF
  {
    assert Tail([w, x, y][1]) && Tail([w, x, y][2]);
  }

  lemma BadFour(w: Byte, x: Byte, y: Byte, z: Byte)
    requires Complete([w, x, y, z]) && !Utf8Char([w, x, y, z])
    ensures Bits4(w, x, y, z) < 0x10000 || Bits4(w, x, y, z) > 0x10FFFF
  {
    assert Tail([w, x, y, z][1]) && Tail([w, x, y, z][2]) && Tail([w, x, y, z][3]);
  }

  lemma WidthOfComplete(s: seq<Byte>, i: nat, n: nat)
    requires i < |s| && CompleteAt(s, i, n)
    ensures Width8(s, i) == n
  {
    var c := s[i..i + n];
    LeadBits(c[0]);
    SliceAt(s, i, c);
    assert s[i + 0] == c[0];
    hide IsContinuation, Tail;
    if n > 1 { assert s[i + 1] == c[1] && Tail(c[1]); TailBits(c[1]); }
    if n > 2 { assert s[i + 2] == c[2] && Tail(c[2]); TailBits(c[2]); }
    if n > 3 { assert s[i + 3] == c[3] && Tail(c[3]); TailBits(c[3]); }
  }

  lemma CompleteOfWidth(s: seq<Byte>, i: nat)
    requires i < |s| && (Width8(s, i) > 1 || s[i] <= 0x7F)
    ensures CompleteAt(s, i, Width8(s, i))
  {
    var n := Width8(s, i);
    var c := s[i..i + n];
    LeadBits(c[0]);
    SliceAt(s, i, c);
    assert s[i + 0] == c[0];
    forall k | 1 <= k < n
      ensures Tail(c[k])
    {
      assert s[i + k] == c[k] && IsContinuation(ByteAt(s, i + k));
      TailBits(c[k]);
    }
  }

  /** A sequence of the announced length that is no character decodes to the replacement. */
  lemma BadCode(c: int, b1: int, b2: int, b3: int)
    requires Length8(c, b1, b2, b3) == 1 ==> c >= 0x80
    requires Length8(c, b1, b2, b3) == 2 ==> Bits2(c, b1) < 0x80
    requires Length8(c, b1, b2, b3) == 3 ==> Bits3(c, b1, b2) < 0x800 || 0xD800 <= Bits3(c, b1, b2) <= 0xDFFF
    requires Length8(c, b1, b2, b3) == 4 ==> Bits4(c, b1, b2, b3) < 0x10000 || Bits4(c, b1, b2, b3) > 0x10FFFF
    ensures Decode8(c, b1, b2, b3) == REPLACEMENT
  {
    hide Bits2, Bits3, Bits4, IsContinuation;
  }

  lemma BadSequence(s: seq<Byte>, i: nat)
    requires i < |s| && !Utf8Char(s[i..i + Width8(s, i)])
    ensures Code8(s, i) == REPLACEMENT
  {
    hide Bits2, Bits3, Bits4, Decode8, Length8, Complete, ByteAt;
    var n := Width8(s, i);
    var e := s[i..i + n];
    var c, b1, b2, b3 := ByteAt(s, i), ByteAt(s, i + 1), ByteAt(s, i + 2), ByteAt(s, i + 3);
    WidthRange(c, b1, b2, b3);
    BytesAt(s, i, e);
    if n == 1 {
      assert !Utf8Char([e[0]]) by { assert e == [e[0]]; }
    } else {
      CompleteOfWidth(s, i);
      hide Utf8Char;
      if n == 2 {
        assert e == [e[0], e[1]];
        BadTwo(e[0], e[1]);
      } else if n == 3 {
        assert e == [e[0], e[1], e[2]];
        BadThree(e[0], e[1], e[2]);
      } else {
        assert e == [e[0], e[1], e[2], e[3]];
        BadFour(e[0], e[1], e[2], e[3]);
      }
    }
    BadCode(c, b1, b2, b3);
  }

  lemma WidthRange(c: int, b1: int, b2: int, b3: int)
    ensures 1 <= Length8(c, b1, b2, b3) <= 4
  {}

  /** The decoder's step is a reading of the text. */
  lemma StepIsReading(s: seq<Byte>, i: nat)
    requires i < |s|
    ensures Width8(s, i) <= 4 && Reading(s, i, Width8(s, i), Code8(s, i))
  {
    var n := Width8(s, i);
    assert n <= 4;
    hide Width8, Code8, Utf8Char, Complete;
    if Utf8Char(s[i..i + n]) {
      DecodeAt8(s, i, n);
    } else {
      BadSequence(s, i);
    }
    if n > 1 || s[i] <= 0x7F {
      CompleteOfWidth(s, i);
    } else {
      forall m: nat
        ensures !CompleteAt(s, i, m)
      {
        if CompleteAt(s, i, m) {
          WidthOfComplete(s, i, m);
          assert m == 1;
          LeadBits(s[i]);
          CompleteOne(s, i);
        }
      }
    }
  }

  lemma CompleteOne(s: seq<Byte>, i: nat)
    requires CompleteAt(s, i, 1)
    ensures s[i] <= 0x7F
  {
    assert s[i..i + 1][0] == s[i];
  }

  /** There is no other reading. */
  lemma ReadingIsStep(s: seq<Byte>, i: nat, n: nat, cp: int)
    requires Reading(s, i, n, cp)
    ensures n == Width8(s, i) && cp == Code8(s, i)
  {
    hide Width8, Code8, Utf8Char, Complete, EncodeUtf8;
    StepIsReading(s, i);
    if CompleteAt(s, i, n) {
      WidthOfComplete(s, i, n);
    } else {
      assert !CompleteAt(s, i, Width8(s, i));
    }
    if Utf8Char(s[i..i + n]) {
      EncodeAt8(cp, s, i);
    }
  }

  /** The decoder reads every text in the one way it can be read: a character as itself, anything
      else as U+FFFD, every byte exactly once. */
  lemma {:induction false} DecoderReadsTheText(s: seq<Byte>, i: nat, cs: seq<int>)
    requires i <= |s|
    ensures Reads(s, i, cs) <==> cs == Scalars8(s, i)
    decreases |s| - i, |cs|
  {
    hide Width8, Code8, Reading;
    if i == |s| {
      if cs != [] && Reads(s, i, cs) {
        var n :| 1 <= n <= 4 && Reading(s, i, n, cs[0]) && Reads(s, i + n, cs[1..]);
        NoReadingAtEnd(s, i, n, cs[0]);
      }
    } else {
      var w := Width8(s, i);
      StepIsReading(s, i);
      if cs != [] {
        DecoderReadsTheText(s, i + w, cs[1..]);
        assert cs == [cs[0]] + cs[1..];
        if Reads(s, i, cs) {
          var n :| 1 <= n <= 4 && Reading(s, i, n, cs[0]) && Reads(s, i + n, cs[1..]);
          ReadingIsStep(s, i, n, cs[0]);
        }
      }
    }
  }

  lemma NoReadingAtEnd(s: seq<Byte>, i: nat, n: nat, cp: int)
    requires i >= |s|
    ensures !Reading(s, i, n, cp)
  {}
}

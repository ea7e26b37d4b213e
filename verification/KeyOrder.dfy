/** Byte order on strings, the padding of index keys, and when the two agree.

    The full scan compares a trimmed field with a literal; an index compares space-padded keys. */
module KeyOrder {
  import opened Text
  import opened Aof

  // ----- byte-lexicographic order

  /** `a < b`, as `std::string` compares. */
  predicate Below(a: string, b: string) {
    if b == "" then false
    else if a == "" then true
    else if a[0] != b[0] then a[0] < b[0]
    else Below(a[1..], b[1..])
  }

  predicate AtMost(a: string, b: string) { !Below(b, a) }

  /** The place where two strings first differ decides. */
  lemma {:induction false} BelowAt(a: string, b: string, k: nat)
    requires k <= |a| && k <= |b| && a[..k] == b[..k]
    requires (k == |a| && k < |b|) || (k < |a| && k < |b| && a[k] < b[k])
    ensures Below(a, b) && !Below(b, a)
  {
    if k > 0 {
      assert a[0] == a[..k][0] && b[0] == b[..k][0];
      assert a[1..][..k - 1] == a[..k][1..] && b[1..][..k - 1] == b[..k][1..];
      BelowAt(a[1..], b[1..], k - 1);
    }
  }

  /** Two different strings differ somewhere first. */
  lemma {:induction false} FirstDifference(a: string, b: string) returns (k: nat)
    requires a != b
    ensures k <= |a| && k <= |b| && a[..k] == b[..k]
    ensures k == |a| || k == |b| || a[k] != b[k]
    ensures k < |a| || k < |b|
  {
    if a == "" || b == "" || a[0] != b[0] {
      k := 0;
    } else {
      assert a == [a[0]] + a[1..] && b == [b[0]] + b[1..];
      var j := FirstDifference(a[1..], b[1..]);
      k := j + 1;
      assert a[..k] == [a[0]] + a[1..][..j] && b[..k] == [b[0]] + b[1..][..j];
    }
  }

  lemma Trichotomy(a: string, b: string)
    ensures a == b ==> !Below(a, b) && !Below(b, a)
    ensures a != b ==> (Below(a, b) <==> !Below(b, a))
  {
    if a == b {
      Irreflexive(a);
    } else {
      var k := FirstDifference(a, b);
      if k == |a| || (k < |b| && a[k] < b[k]) {
        BelowAt(a, b, k);
      } else {
        BelowAt(b, a, k);
      }
    }
  }

  lemma {:induction false} Irreflexive(a: string)
    ensures !Below(a, a)
  {
    if a != "" {
      Irreflexive(a[1..]);
    }
  }

  lemma {:induction false} Transitive(a: string, b: string, c: string)
    requires Below(a, b) && Below(b, c)
    ensures Below(a, c)
  {
    if a != "" && a[0] == b[0] == c[0] {
      Transitive(a[1..], b[1..], c[1..]);
    }
  }

  // ----- trimming and padding

  /** Drops every trailing byte up to and including the space. */
  function RTrim(s: string): (t: string)
    ensures t <= s && (t == "" || t[|t| - 1] > ' ')
  {
    if s != "" && s[|s| - 1] <= ' ' then RTrim(s[..|s| - 1]) else s
  }

  /** A string as a key of `klen` bytes: padded with spaces, or cut. */
  function PadKey(s: string, klen: nat): (k: string)
    ensures |k| == klen
  {
    if |s| <= klen then s + Repeat(' ', klen - |s|) else s[..klen]
  }

  predicate Clean(s: string) { forall k | 0 <= k < |s| :: s[k] >= ' ' }

  predicate Trimmed(s: string) { s == "" || s[|s| - 1] > ' ' }

  lemma {:induction false} RTrimTail(s: string)
    ensures forall k | |RTrim(s)| <= k < |s| :: s[k] <= ' '
  {
    if s != "" && s[|s| - 1] <= ' ' {
      RTrimTail(s[..|s| - 1]);
      assert forall k | 0 <= k < |s| - 1 :: s[..|s| - 1][k] == s[k];
    }
  }

  lemma PadAt(s: string, klen: nat, k: nat)
    requires k < klen
    ensures PadKey(s, klen)[k] == if k < |s| then s[k] else ' '
  {}

  /** A field value that a key of `klen` bytes holds completely. */
  predicate Fits(v: string, klen: nat) { |v| <= klen && Clean(v) }

  /** A key does not see trailing spaces. */
  lemma PadTrim(v: string, klen: nat)
    requires Clean(v)
    ensures PadKey(RTrim(v), klen) == PadKey(v, klen)
  {
    var t := RTrim(v);
    RTrimTail(v);
    forall k | 0 <= k < klen
      ensures PadKey(t, klen)[k] == PadKey(v, klen)[k]
    {
      PadAt(t, klen, k);
      PadAt(v, klen, k);
    }
  }

  /** Padding preserves order: on clean trimmed strings that fit, keys compare as the strings do. */
  lemma PaddingPreservesOrder(v: string, w: string, klen: nat)
    requires Fits(v, klen) && Fits(w, klen) && Trimmed(v) && Trimmed(w)
    ensures Below(PadKey(v, klen), PadKey(w, klen)) <==> Below(v, w)
    ensures PadKey(v, klen) == PadKey(w, klen) <==> v == w
  {
    if v != w {
      if Below(v, w) {
        PaddingIsMonotone(v, w, klen);
      } else {
        Trichotomy(v, w);
        PaddingIsMonotone(w, v, klen);
      }
      Trichotomy(v, w);
      Trichotomy(PadKey(v, klen), PadKey(w, klen));
    } else {
      Irreflexive(v);
      Irreflexive(PadKey(v, klen));
    }
  }

  lemma PaddingIsMonotone(v: string, w: string, klen: nat)
    requires Fits(v, klen) && Fits(w, klen) && Trimmed(v) && Trimmed(w) && Below(v, w)
    ensures Below(PadKey(v, klen), PadKey(w, klen))
  {
    Irreflexive(v);
    var k := FirstDifference(v, w);
    if k == |w| || (k < |v| && k < |w| && w[k] < v[k]) {
      BelowAt(w, v, k);
      assert false;
    }
    var p, q := PadKey(v, klen), PadKey(w, klen);
    if k < |v| {
      assert p[..k] == v[..k] && q[..k] == w[..k];
      BelowAt(p, q, k);
    } else {
      // `v` is a proper prefix of `w`: the first non-space of `w` after it decides.
      var j := FirstNonSpace(w, k);
      forall i | 0 <= i < j
        ensures p[i] == q[i]
      {
        PadAt(v, klen, i);
        PadAt(w, klen, i);
        assert i < k ==> v[..k][i] == w[..k][i];
      }
      assert p[..j] == q[..j];
      PadAt(v, klen, j);
      BelowAt(p, q, j);
    }
  }

  lemma FirstNonSpace(w: string, k: nat) returns (j: nat)
    requires k < |w| && Trimmed(w) && Clean(w)
    ensures k <= j < |w| && w[j] > ' ' && forall i | k <= i < j :: w[i] == ' '
    decreases |w| - k
  {
    if w[k] > ' ' {
      j := k;
    } else {
      j := FirstNonSpace(w, k + 1);
    }
  }

  // ----- leaves on keys and leaves on texts

  /** `field op operands`, in byte order. */
  predicate Satisfies(op: Op, operands: seq<string>, v: string)
    requires HasOperands(op, |operands|)
  {
    match op
    case Eq => v == operands[0]
    case Ne => v != operands[0]
    case Lt => Below(v, operands[0])
    case Le => AtMost(v, operands[0])
    case Gt => Below(operands[0], v)
    case Ge => AtMost(operands[0], v)
    case Between => AtMost(operands[0], v) && AtMost(v, operands[1])
    case In => v in operands
  }

  function Keys(texts: seq<string>, klen: nat): (ks: seq<string>)
    ensures |ks| == |texts| && forall k | 0 <= k < |ks| :: ks[k] == PadKey(texts[k], klen)
  {
    seq(|texts|, k requires 0 <= k < |texts| => PadKey(texts[k], klen))
  }

  predicate CleanKey(s: string, klen: nat) { Clean(PadKey(s, klen)) }

  /** The one trimmed text that has the key of `s`. */
  function Canon(s: string, klen: nat): string { RTrim(PadKey(s, klen)) }

  lemma CanonPrefix(s: string, klen: nat)
    ensures Canon(s, klen) <= s && |Canon(s, klen)| <= klen
  {
    var c := Canon(s, klen);
    if c != "" {
      PadAt(s, klen, |c| - 1);
    }
    forall k | 0 <= k < |c|
      ensures k < |s| && c[k] == s[k]
    {
      PadAt(s, klen, k);
    }
  }

  /** An index sees the canonical text in place of the literal. */
  lemma KeySeesCanon(v: string, s: string, klen: nat)
    requires Fits(v, klen) && CleanKey(s, klen)
    ensures var t, c, p, q := RTrim(v), Canon(s, klen), PadKey(v, klen), PadKey(s, klen);
      (p == q <==> t == c) && (Below(p, q) <==> Below(t, c)) && (Below(q, p) <==> Below(c, t))
  {
    var t, c := RTrim(v), Canon(s, klen);
    PadTrim(v, klen);
    PadTrim(PadKey(s, klen), klen);
    assert PadKey(PadKey(s, klen), klen) == PadKey(s, klen);
    PaddingPreservesOrder(t, c, klen);
    PaddingPreservesOrder(c, t, klen);
  }

  /** A literal that continues a trimmed text with blanks up to `n`, and then with a control byte if a field
      value can be longer, lies just above that text: no field value is between. */
  lemma JustAbove(t: string, s: string, c: string, n: nat)
    requires Clean(t) && Trimmed(t) && c <= s && c != s
    requires forall i | |c| <= i < n && i < |s| :: s[i] <= ' '
    requires |t| <= n || (n < |s| && s[n] < ' ')
    ensures t != s && (Below(t, s) <==> AtMost(t, c)) && (Below(s, t) <==> Below(c, t))
  {
    BelowAt(c, s, |c|);
    Trichotomy(t, c);
    if Below(t, c) {
      Transitive(t, c, s);
    } else if t != c {
      AboveBlanks(t, s, c, n);
    }
    Trichotomy(t, s);
    Irreflexive(c);
  }

  lemma AboveBlanks(t: string, s: string, c: string, n: nat)
    requires Clean(t) && Trimmed(t) && c <= s && Below(c, t)
    requires forall i | |c| <= i < n && i < |s| :: s[i] <= ' '
    requires |t| <= n || (n < |s| && s[n] < ' ')
    ensures Below(s, t)
  {
    Irreflexive(c);
    var k := FirstDifference(c, t);
    if k < |c| {
      if k == |t| || t[k] < c[k] {
        BelowAt(t, c, k);
        assert false;
      }
      assert s[..k] == c[..k];
      BelowAt(s, t, k);
    } else {
      assert c[..k] == c;
      BlanksLose(t, s, c, n);
    }
  }

  lemma BlanksLose(t: string, s: string, c: string, n: nat)
    requires Clean(t) && Trimmed(t) && c <= s && c <= t && |c| < |t|
    requires forall i | |c| <= i < n && i < |s| :: s[i] <= ' '
    requires |t| <= n || (n < |s| && s[n] < ' ')
    ensures Below(s, t)
  {
    BlanksEnd(t, s, c, n);
    var d := FirstDifference(s, t);
    SharedPrefix(s, t, d);
    BelowAt(s, t, d);
  }

  /** The blanks of `s` part from the trimmed text `t` before `t` ends. */
  lemma BlanksEnd(t: string, s: string, c: string, n: nat)
    requires Clean(t) && Trimmed(t) && c <= s && c <= t && |c| < |t|
    requires forall i | |c| <= i < n && i < |s| :: s[i] <= ' '
    requires |t| <= n || (n < |s| && s[n] < ' ')
    ensures !(t <= s)
  {
    var i := if |t| <= n then |t| - 1 else n;
    assert i < |s| ==> s[i] != t[i];
  }

  // ----- control bytes

  /** The part of a text before its first control byte. */
  function CleanPart(s: string): (w: string)
    ensures w <= s && Clean(w) && (|w| < |s| ==> s[|w|] < ' ')
  {
    if s == "" || s[0] < ' ' then "" else [s[0]] + CleanPart(s[1..])
  }

  lemma ControlInKey(s: string, klen: nat)
    requires !CleanKey(s, klen)
    ensures |CleanPart(s)| < klen && |CleanPart(s)| < |s|
  {
    var k :| 0 <= k < klen && PadKey(s, klen)[k] < ' ';
    PadAt(s, klen, k);
  }

  /** A key with a control byte lies just below the key of the text before that byte. */
  lemma ControlKey(p: string, s: string, klen: nat)
    requires |p| == klen && Clean(p) && !CleanKey(s, klen)
    ensures var q := PadKey(s, klen);
      p != q && (Below(p, q) <==> Below(p, PadKey(CleanPart(s), klen)))
  {
    ControlInKey(s, klen);
    var w, k := CleanPart(s), |CleanPart(s)|;
    var q, r := PadKey(s, klen), PadKey(w, klen);
    forall i | 0 <= i <= k
      ensures if i < k then q[i] == r[i] else q[i] < ' ' == r[i]
    {
      PadAt(s, klen, i);
      PadAt(w, klen, i);
    }
    assert q[..k] == r[..k];
    if p[..k] == q[..k] {
      BelowAt(q, p, k);
      NotBelowBlanks(p, r, k);
    } else {
      var j := FirstDifference(p, r);
      SharedPrefix(p, r, j);
      SharedPrefix(q, r, k);
      DecidedAt(p, q, j);
      DecidedAt(p, r, j);
    }
  }

  lemma SharedPrefix(a: string, b: string, k: nat)
    requires k <= |a| && k <= |b| && a[..k] == b[..k]
    ensures forall j | 0 <= j < k :: a[j] == b[j]
    ensures forall j | 0 <= j <= k :: a[..j] == b[..j]
  {
    forall j | 0 <= j <= k
      ensures a[..j] == b[..j]
    {
      assert a[..k][..j] == b[..k][..j];
    }
    assert forall j | 0 <= j < k :: a[..k][j] == b[..k][j];
  }

  lemma DecidedAt(a: string, b: string, j: nat)
    requires j < |a| && j < |b| && a[..j] == b[..j] && a[j] != b[j]
    ensures Below(a, b) <==> a[j] < b[j]
  {
    if a[j] < b[j] {
      BelowAt(a, b, j);
    } else {
      BelowAt(b, a, j);
    }
  }

  lemma NotBelowBlanks(p: string, r: string, k: nat)
    requires k <= |p| == |r| && p[..k] == r[..k] && Clean(p) && forall i | k <= i < |r| :: r[i] == ' '
    ensures !Below(p, r)
  {
    Irreflexive(p);
    if p != r {
      var j := FirstDifference(p, r);
      SharedPrefix(p, r, k);
      BelowAt(r, p, j);
    }
  }

  // ----- the place of a field value against any literal

  /** The trimmed text next to which both paths place a literal. */
  function Anchor(s: string, klen: nat): string {
    Canon(if CleanKey(s, klen) then s else CleanPart(s), klen)
  }

  /** The key of `s` holds `s` completely. */
  predicate Kept(s: string, klen: nat) { CleanKey(s, klen) && Canon(s, klen) == s }

  /** How the two paths place the field value `v`: the index below or above the key of `s`, the full scan
      below or above `s` itself. */
  lemma PlaceAgainst(v: string, s: string, klen: nat)
    requires Fits(v, klen)
    ensures var t, c, p, q := RTrim(v), Anchor(s, klen), PadKey(v, klen), PadKey(s, klen);
      && (Below(p, q) <==> Below(t, c))
      && (Below(q, p) <==> if CleanKey(s, klen) then Below(c, t) else !Below(t, c))
      && (Below(s, t) <==> Below(c, t))
      && (Below(t, s) <==> if Kept(s, klen) then Below(t, c) else !Below(c, t))
      && (p == q <==> CleanKey(s, klen) && t == c) && (t == s <==> Kept(s, klen) && t == c)
  {
    hide PadKey, RTrim, Below;
    var t, c := RTrim(v), Anchor(s, klen);
    FitsTrim(v, klen);
    if CleanKey(s, klen) {
      KeySeesCanon(v, s, klen);
      if c != s {
        BlanksAfterCanon(s, klen);
        JustAbove(t, s, c, klen);
      }
    } else {
      PlaceAgainstControl(v, s, klen);
    }
    Trichotomy(t, s);
  }

  lemma BlanksAfterCanon(s: string, klen: nat)
    requires CleanKey(s, klen)
    ensures Canon(s, klen) <= s && forall i | |Canon(s, klen)| <= i < klen && i < |s| :: s[i] <= ' '
  {
    CanonPrefix(s, klen);
    RTrimTail(PadKey(s, klen));
    forall i | |Canon(s, klen)| <= i < klen && i < |s|
      ensures s[i] <= ' '
    {
      PadAt(s, klen, i);
    }
  }

  lemma PlaceAgainstControl(v: string, s: string, klen: nat)
    requires Fits(v, klen) && !CleanKey(s, klen)
    ensures var t, c, p, q := RTrim(v), Anchor(s, klen), PadKey(v, klen), PadKey(s, klen);
      && p != q && (Below(p, q) <==> Below(t, c)) && (Below(q, p) <==> !Below(t, c))
      && t != s && (Below(s, t) <==> Below(c, t)) && (Below(t, s) <==> !Below(c, t))
  {
    hide PadKey, RTrim, Below;
    var w := CleanPart(s);
    ControlInKey(s, klen);
    PadIsClean(v, klen);
    PadIsClean(w, klen);
    ControlKey(PadKey(v, klen), s, klen);
    Trichotomy(PadKey(v, klen), PadKey(s, klen));
    KeySeesCanon(v, w, klen);
    FitsTrim(v, klen);
    BlanksAfterCanon(w, klen);
    JustAbove(RTrim(v), s, Anchor(s, klen), |w|);
  }

  lemma PadIsClean(v: string, klen: nat)
    requires Clean(v)
    ensures Clean(PadKey(v, klen))
  {}

  // ----- exactly when an index answers a leaf as the full scan does

  /** For `op` and these literals the keys of `klen` bytes lose nothing that matters. */
  predicate LiteralsExact(op: Op, texts: seq<string>, klen: nat)
    requires HasOperands(op, |texts|)
  {
    match op
    case Eq => !CleanKey(texts[0], klen) || Kept(texts[0], klen)
    case Ne => !CleanKey(texts[0], klen) || Kept(texts[0], klen)
    case Lt => Kept(texts[0], klen)
    case Ge => Kept(texts[0], klen)
    case Le => CleanKey(texts[0], klen)
    case Gt => CleanKey(texts[0], klen)
    case Between => BoundsExact(texts[0], texts[1], klen)
    case In => forall k | 0 <= k < |texts| :: !CleanKey(texts[k], klen) || Canon(texts[k], klen) in texts
  }

  /** Bounds may each be inexact where the other bound shuts out the one text they would misplace. */
  predicate BoundsExact(lo: string, hi: string, klen: nat) {
    && (Kept(lo, klen) || !KeyWithin(Anchor(lo, klen), hi, klen))
    && (CleanKey(hi, klen) || !TextReaches(Anchor(hi, klen), lo, klen))
  }

  /** The index takes the trimmed text `t` for one that is at most `hi`. */
  predicate KeyWithin(t: string, hi: string, klen: nat) {
    if CleanKey(hi, klen) then AtMost(t, Anchor(hi, klen)) else Below(t, Anchor(hi, klen))
  }

  /** The full scan takes the trimmed text `t` for one that is at least `lo`. */
  predicate TextReaches(t: string, lo: string, klen: nat) {
    if Kept(lo, klen) then AtMost(lo, t) else Below(Anchor(lo, klen), t)
  }

  /** Both paths agree on the field value `v`. */
  ghost predicate Agree(op: Op, texts: seq<string>, klen: nat, v: string)
    requires HasOperands(op, |texts|)
  {
    Satisfies(op, Keys(texts, klen), PadKey(v, klen)) <==> Satisfies(op, texts, RTrim(v))
  }

  lemma FitsTrim(v: string, klen: nat)
    requires Fits(v, klen)
    ensures Fits(RTrim(v), klen) && Trimmed(RTrim(v)) && RTrim(RTrim(v)) == RTrim(v)
  {}

  /** The anchor is itself a field value. */
  lemma AnchorFits(s: string, klen: nat)
    ensures Fits(Anchor(s, klen), klen) && RTrim(Anchor(s, klen)) == Anchor(s, klen)
  {
    var w := if CleanKey(s, klen) then s else CleanPart(s);
    CanonPrefix(w, klen);
    forall k | 0 <= k < |Canon(w, klen)|
      ensures Canon(w, klen)[k] >= ' '
    {
      PadAt(w, klen, k);
    }
  }

  lemma ExactAgrees(op: Op, texts: seq<string>, klen: nat, v: string)
    requires HasOperands(op, |texts|) && Fits(v, klen) && LiteralsExact(op, texts, klen)
    ensures Agree(op, texts, klen, v)
  {
    hide PadKey, RTrim, Below, Clean, Fits, Canon, Anchor, CleanKey, Kept;
    if op == In {
      ExactAgreesIn(texts, klen, v);
    } else {
      PlaceAgainst(v, texts[0], klen);
      Trichotomy(RTrim(v), Anchor(texts[0], klen));
      if op == Between {
        BetweenAgrees(texts, klen, v);
      } else {
        if Kept(texts[0], klen) { KeptIsClean(texts[0], klen); }
      }
    }
  }

  lemma KeptIsClean(s: string, klen: nat)
    requires Kept(s, klen)
    ensures CleanKey(s, klen) && Anchor(s, klen) == s
  {}

  /** Only at the anchors of the bounds can the two paths part. */
  lemma BetweenAgrees(texts: seq<string>, klen: nat, v: string)
    requires |texts| >= 2 && Fits(v, klen)
    ensures var t, lo, hi := RTrim(v), texts[0], texts[1];
      Agree(Between, texts, klen, v) <==>
        && !(t == Anchor(lo, klen) && !Kept(lo, klen) && KeyWithin(t, hi, klen))
        && !(t == Anchor(hi, klen) && !CleanKey(hi, klen) && TextReaches(t, lo, klen))
  {
    hide PadKey, RTrim, Below, Clean, Fits, Canon, Anchor, CleanKey, Kept;
    var t, lo, hi := RTrim(v), texts[0], texts[1];
    PlaceAgainst(v, lo, klen);
    PlaceAgainst(v, hi, klen);
    Trichotomy(t, Anchor(lo, klen));
    Trichotomy(t, Anchor(hi, klen));
    if Kept(lo, klen) { KeptIsClean(lo, klen); }
    assert Keys(texts, klen)[0] == PadKey(lo, klen) && Keys(texts, klen)[1] == PadKey(hi, klen);
  }

  lemma ExactAgreesIn(texts: seq<string>, klen: nat, v: string)
    requires Fits(v, klen) && LiteralsExact(In, texts, klen)
    ensures Agree(In, texts, klen, v)
  {
    hide PadKey, RTrim, Below, Clean, Fits;
    var ks, t := Keys(texts, klen), RTrim(v);
    if PadKey(v, klen) in ks {
      var k :| 0 <= k < |ks| && ks[k] == PadKey(v, klen);
      PlaceAgainst(v, texts[k], klen);
    }
    if t in texts {
      var k :| 0 <= k < |texts| && texts[k] == t;
      PadOfTrim(v, klen);
      assert ks[k] == PadKey(v, klen);
    }
  }

  lemma PadOfTrim(v: string, klen: nat)
    requires Fits(v, klen)
    ensures PadKey(RTrim(v), klen) == PadKey(v, klen)
  {
    PadTrim(v, klen);
  }

  lemma InexactDisagrees(op: Op, texts: seq<string>, klen: nat) returns (v: string)
    requires HasOperands(op, |texts|) && !LiteralsExact(op, texts, klen)
    ensures Fits(v, klen) && !Agree(op, texts, klen, v)
  {
    hide PadKey, RTrim, Below, Clean, Fits, Canon, Anchor, CleanKey, Kept;
    var k := 0;
    if op == In {
      k :| 0 <= k < |texts| && CleanKey(texts[k], klen) && Canon(texts[k], klen) !in texts;
      assert Canon(texts[k], klen) == Anchor(texts[k], klen) by { CleanAnchor(texts[k], klen); }
    } else if op == Between && (Kept(texts[0], klen) || !KeyWithin(Anchor(texts[0], klen), texts[1], klen)) {
      k := 1;
    }
    v := Anchor(texts[k], klen);
    AnchorFits(texts[k], klen);
    PlaceAgainst(v, texts[k], klen);
    Irreflexive(v);
    assert Keys(texts, klen)[k] == PadKey(texts[k], klen);
    if op == Between {
      BetweenAgrees(texts, klen, v);
    }
  }

  lemma CleanAnchor(s: string, klen: nat)
    requires CleanKey(s, klen)
    ensures Anchor(s, klen) == Canon(s, klen)
  {}

  /** The index answers a leaf as the full scan does, for every field value its keys can hold,
      exactly when `LiteralsExact` says so. */
  lemma LeafExactness(op: Op, texts: seq<string>, klen: nat)
    requires HasOperands(op, |texts|)
    ensures (forall v | Fits(v, klen) :: Agree(op, texts, klen, v)) <==> LiteralsExact(op, texts, klen)
  {
    if LiteralsExact(op, texts, klen) {
      forall v | Fits(v, klen)
        ensures Agree(op, texts, klen, v)
      {
        ExactAgrees(op, texts, klen, v);
      }
    } else {
      var v := InexactDisagrees(op, texts, klen);
    }
  }
}

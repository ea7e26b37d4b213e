/** An index as the filter evaluator sees it: sorted entries, a cursor, and range walks.

    Two drivers are modelled.  They differ where a soft seek passes every key: a CDX index is then
    unpositioned, an NTX index stands on its last entry. */
module AofIndex {
  import opened KeyOrder

  datatype Driver = Cdx | Ntx

  datatype Entry = Entry(key: string, recno: nat)

  datatype SeekHit = Exact | AfterKey | AfterEnd

  datatype SeekOutcome = SeekOutcome(hit: SeekHit, recno: nat, positioned: bool)

  const UNPOSITIONED := SeekOutcome(AfterEnd, 0, false)

  /** Where an index stands.  The last three are how a CDX index remembers a failed seek. */
  datatype Cursor = Initial | On(i: nat) | AfterLast | Gap(i: nat) | BeforeFirst | AfterLastKey

  ghost predicate Sorted(entries: seq<Entry>) {
    forall i, j | 0 <= i < j < |entries| :: AtMost(entries[i].key, entries[j].key)
  }

  /** The first entry from `i` on whose key is not below `key`. */
  function LowerBound(entries: seq<Entry>, key: string, i: nat): (p: nat)
    requires i <= |entries|
    ensures i <= p <= |entries|
    ensures forall k | i <= k < p :: Below(entries[k].key, key)
    ensures p < |entries| ==> !Below(entries[p].key, key)
    decreases |entries| - i
  {
    if i < |entries| && Below(entries[i].key, key) then LowerBound(entries, key, i + 1) else i
  }

  class Index {
    const driver: Driver
    const expression: string
    const keyLength: nat
    const entries: seq<Entry>
    var cursor: Cursor
    var currentKey: string

    ghost predicate WellKeyed() { forall k | 0 <= k < |entries| :: |entries[k].key| == keyLength }

    ghost predicate Valid()
      reads this
    {
      && Sorted(entries) && WellKeyed()
      && (cursor.On? ==> cursor.i < |entries| && currentKey == entries[cursor.i].key)
      && (cursor.Gap? ==> driver.Cdx? && cursor.i < |entries|)
      && (cursor.BeforeFirst? || cursor.AfterLastKey? ==> driver.Cdx?)
    }

    /** The outcome `o` is the current entry, if it is positioned. */
    ghost predicate Stands(o: SeekOutcome)
      reads this
    {
      o.positioned ==> cursor.On? && cursor.i < |entries| && o.recno == entries[cursor.i].recno
    }

    constructor (driver: Driver, expression: string, keyLength: nat, entries: seq<Entry>)
      requires Sorted(entries) && forall k | 0 <= k < |entries| :: |entries[k].key| == keyLength
      ensures Valid() && this.driver == driver && this.expression == expression
      ensures this.keyLength == keyLength && this.entries == entries
    {
      this.driver := driver;
      this.expression := expression;
      this.keyLength := keyLength;
      this.entries := entries;
      cursor, currentKey := Initial, "";
    }

    /** How a seek that finds no entry leaves the cursor, `p` being the first greater key: an NTX index
        ignores it, a CDX index remembers where the key would have been. */
    function Missed(before: Cursor, p: nat, soft: bool): Cursor
      requires p <= |entries|
    {
      if driver.Ntx? || entries == [] then before
      else if p == |entries| then (if soft then AfterLast else AfterLastKey)
      else if p == 0 then BeforeFirst
      else Gap(p)
    }

    /** The entry the cursor advances to; `|entries|` if there is none. */
    function Successor(c: Cursor): nat {
      match c
      case On(i) => i + 1
      case Gap(i) => i
      case BeforeFirst => 0
      case AfterLastKey => 0
      case _ => |entries|
    }

    method MoveTo(i: nat, hit: SeekHit) returns (o: SeekOutcome)
      requires Valid() && i < |entries|
      modifies this
      ensures Valid() && cursor == On(i) && o == SeekOutcome(hit, entries[i].recno, true)
    {
      cursor, currentKey := On(i), entries[i].key;
      o := SeekOutcome(hit, entries[i].recno, true);
    }

    method SeekFirst() returns (o: SeekOutcome)
      requires Valid()
      modifies this
      ensures Valid() && Stands(o) && o.positioned == (entries != [])
      ensures if o.positioned then cursor == On(0) else o == UNPOSITIONED && cursor == old(cursor)
    {
      if entries == [] { return UNPOSITIONED; }
      o := MoveTo(0, Exact);
    }

    /** How many bytes of the keys a seek compares: CDX matches a short key as a prefix, NTX pads it. */
    function Compared(key: string): (n: nat)
      ensures n <= keyLength
    {
      if driver.Cdx? && |key| < keyLength then |key| else keyLength
    }

    /** The entries with their keys cut to the compared bytes. */
    ghost function Seen(key: string): (es: seq<Entry>)
      requires WellKeyed()
      ensures |es| == |entries| && (Compared(key) == keyLength ==> es == entries)
      ensures forall k | 0 <= k < |es| :: es[k] == Entry(entries[k].key[..Compared(key)], entries[k].recno)
    {
      var n := Compared(key);
      assert n == keyLength ==> forall k | 0 <= k < |entries| :: entries[k].key[..n] == entries[k].key;
      seq(|entries|, k requires 0 <= k < |entries| && WellKeyed() => Entry(entries[k].key[..n], entries[k].recno))
    }

    /** What a seek compares with the cut keys. */
    function Wanted(key: string): (w: string)
      ensures |w| == Compared(key)
    {
      PadKey(key, keyLength)[..Compared(key)]
    }

    lemma FullKey(key: string)
      requires WellKeyed() && |key| == keyLength
      ensures Seen(key) == entries && Wanted(key) == key
    {}

    /** A missed seek for a key with `p` keys below it: after a hard miss a CDX index goes on with the first
        greater key, or around to the first of all; after a soft miss, and on an NTX index, it is done or where
        it was. */
    lemma AfterMiss(before: Cursor, p: nat, soft: bool)
      requires p <= |entries| && entries != []
      ensures driver.Cdx? && !soft ==> Successor(Missed(before, p, soft)) == if p < |entries| then p else 0
      ensures driver.Cdx? && soft && p == |entries| ==> Successor(Missed(before, p, soft)) == |entries|
      ensures driver.Ntx? ==> Missed(before, p, soft) == before
    {}

    /** An NTX index, and any index for a key at least as long as its keys, compares whole keys. */
    lemma WholeKey(key: string)
      requires WellKeyed() && (driver.Ntx? || |key| >= keyLength)
      ensures Seen(key) == entries && Wanted(key) == PadKey(key, keyLength)
    {}

    /** A CDX seek for a short key finds it as a prefix. */
    lemma ShortKey(key: string, k: nat)
      requires WellKeyed() && driver.Cdx? && |key| <= keyLength && k < |entries|
      ensures Seen(key)[k].key == Wanted(key) <==> key <= entries[k].key
    {
      assert Wanted(key) == key;
    }

    method SeekKey(key: string, soft: bool) returns (o: SeekOutcome)
      requires Valid()
      modifies this
      ensures Valid() && Stands(o)
      ensures var es, w := Seen(key), Wanted(key);
        var p := LowerBound(es, w, 0);
        if p < |es| && es[p].key == w then o.hit == Exact && o.positioned && cursor == On(p)
        else if !soft then o == UNPOSITIONED
        else if p < |entries| then o.hit == AfterKey && o.positioned && cursor == On(p)
        else if driver.Ntx? && entries != [] then o.hit == AfterKey && o.positioned && cursor == On(|entries| - 1)
        else o == UNPOSITIONED
      ensures !o.positioned ==> cursor == Missed(old(cursor), LowerBound(Seen(key), Wanted(key), 0), soft)
    {
      ghost var es := Seen(key);
      var n, w := Compared(key), Wanted(key);
      if entries == [] { return UNPOSITIONED; }
      var i := 0;
      while i < |entries|
        invariant 0 <= i <= |entries| && Valid() && cursor == old(cursor)
        invariant LowerBound(es, w, i) == LowerBound(es, w, 0)
      {
        var k := entries[i].key[..n];
        Trichotomy(k, w);
        if k == w {
          o := MoveTo(i, Exact);
          return;
        }
        if Below(w, k) {
          if !soft {
            if driver.Cdx? { cursor := if i == 0 then BeforeFirst else Gap(i); }
            return UNPOSITIONED;
          }
          o := MoveTo(i, AfterKey);
          return;
        }
        i := i + 1;
      }
      if driver.Ntx? {
        if !soft { return UNPOSITIONED; }
        o := MoveTo(|entries| - 1, AfterKey);
        return;
      }
      cursor := if soft then AfterLast else AfterLastKey;
      return UNPOSITIONED;
    }

    method Next() returns (o: SeekOutcome)
      requires Valid()
      modifies this
      ensures Valid() && Stands(o)
      ensures var k := Successor(old(cursor));
        if k < |entries| then o.positioned && cursor == On(k)
        else o == UNPOSITIONED && cursor == if old(cursor).On? then AfterLast else old(cursor)
    {
      match cursor
      case On(i) =>
        if i + 1 < |entries| {
          o := MoveTo(i + 1, Exact);
        } else {
          cursor := AfterLast;
          o := UNPOSITIONED;
        }
      case Gap(i) => o := MoveTo(i, Exact);
      case BeforeFirst => o := SeekFirst();
      case AfterLastKey => o := SeekFirst();
      case _ => o := UNPOSITIONED;
    }
  }

  // ----- range walks

  /** `bm` with the bit of record `r` set, if there is such a record. */
  function SetBit(bm: seq<bool>, r: nat): (bm': seq<bool>)
    ensures |bm'| == |bm|
  {
    if 1 <= r <= |bm| then bm[r - 1 := true] else bm
  }

  /** `bm` with the bits of the entries `i` to `j` set. */
  function Mark(bm: seq<bool>, entries: seq<Entry>, i: nat, j: nat): (bm': seq<bool>)
    requires i <= j <= |entries|
    ensures |bm'| == |bm|
    decreases j - i
  {
    if i == j then bm else Mark(SetBit(bm, entries[i].recno), entries, i + 1, j)
  }

  lemma {:induction false} MarkBits(bm: seq<bool>, entries: seq<Entry>, i: nat, j: nat, r: nat)
    requires i <= j <= |entries| && 1 <= r <= |bm|
    ensures Mark(bm, entries, i, j)[r - 1] <==> bm[r - 1] || exists k :: i <= k < j && entries[k].recno == r
    decreases j - i
  {
    if i < j {
      MarkBits(SetBit(bm, entries[i].recno), entries, i + 1, j, r);
    }
  }

  /** The first entry from `i` on that `keep` rejects. */
  function WalkEnd(entries: seq<Entry>, i: nat, keep: (nat, string) -> bool): (j: nat)
    requires i <= |entries|
    ensures i <= j <= |entries|
    ensures forall k | i <= k < j :: keep(entries[k].recno, entries[k].key)
    ensures j < |entries| ==> !keep(entries[j].recno, entries[j].key)
    decreases |entries| - i
  {
    if i < |entries| && keep(entries[i].recno, entries[i].key) then WalkEnd(entries, i + 1, keep) else i
  }

  /** Walks forward from `start` while `keep` accepts, and marks the records it visits. */
  method RangeWalk(idx: Index, bm: seq<bool>, rc: nat, start: SeekOutcome, keep: (nat, string) -> bool)
      returns (bm': seq<bool>)
    requires idx.Valid() && idx.Stands(start) && |bm| == rc
    modifies idx
    ensures idx.Valid() && |bm'| == rc
    ensures bm' == if !start.positioned then bm else
      Mark(bm, idx.entries, old(idx.cursor).i, WalkEnd(idx.entries, old(idx.cursor).i, keep))
  {
    hide Sorted, Below;
    bm' := bm;
    var outcome := start;
    ghost var i := if start.positioned then idx.cursor.i else |idx.entries|;
    ghost var first := i;
    while outcome.positioned
      invariant idx.Valid() && idx.Stands(outcome) && |bm'| == rc && first <= i <= |idx.entries|
      invariant outcome.positioned ==> idx.cursor == On(i)
      invariant !outcome.positioned ==> i == |idx.entries|
      invariant Mark(bm', idx.entries, i, WalkEnd(idx.entries, i, keep))
             == Mark(bm, idx.entries, first, WalkEnd(idx.entries, first, keep))
      decreases |idx.entries| - i, outcome.positioned
    {
      var r := outcome.recno;
      var k := idx.currentKey;
      if !keep(r, k) { break; }
      if 1 <= r <= rc { bm' := bm'[r - 1 := true]; }
      outcome := idx.Next();
      i := i + 1;
    }
  }
}

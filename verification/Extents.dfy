/** One leaf of the ext4 extent tree: the 12-byte entries, the linear search of
    `ext_lookup` and the insertion rule of `leaf_insert` (kernel/fs/ext4.c). */
module Extents {
  import opened Words

  /** Largest length of an initialised extent; a larger `ee_len` marks an
      uninitialised extent of length `ee_len - 32768`. */
  const INIT_MAX := 32768

  /** A decoded 12-byte entry. In a leaf: file block, `ee_len`, first disk block.
      In an index node: first file block of the child, 0, the child's disk block.
      `NodeCodec` relates it to the stored words. */
  datatype Slot = Slot(key: nat, len: nat, addr: nat)

  function Len(s: Slot): nat {
    if s.len > INIT_MAX then s.len - INIT_MAX else s.len
  }

  function NewExtent(f: nat, p: nat): Slot { Slot(f, 1, p) }

  function NewIndex(k: nat, b: nat): Slot { Slot(k, 0, b) }

  /** `ee_len = len + 1`. */
  function Grow(s: Slot): Slot { s.(len := Len(s) + 1) }

  /** The next extent taken over from its left: new block, start and length. */
  function Prepend(s: Slot, f: nat, p: nat): Slot { Slot(f, Len(s) + 1, p) }

  /** The file block after the extent, in 32-bit arithmetic as the code computes it. */
  function End(s: Slot): nat { Add32(s.key, Len(s)) }

  predicate Covers(s: Slot, f: nat) { s.key <= f < End(s) }

  /** The leaf search: the first entry that covers f. */
  function Find(es: seq<Slot>, f: nat): Option<nat> {
    if es == [] then None
    else if Covers(es[0], f) then Some(Add32(es[0].addr, f - es[0].key))
    else Find(es[1..], f)
  }

  predicate SlotWf(s: Slot) {
    && s.len < U16
    && 1 <= Len(s)
    && s.key + Len(s) < U32
    && 0 < s.addr && s.addr + Len(s) <= U32
  }

  /** Extents in [lo, hi), sorted by file block and disjoint. */
  ghost predicate SortedIn(es: seq<Slot>, lo: nat, hi: nat) {
    if es == [] then lo <= hi
    else SlotWf(es[0]) && lo <= es[0].key && SortedIn(es[1..], es[0].key + Len(es[0]), hi)
  }

  /** The number of leading entries whose block is at most f. */
  function Pos(es: seq<Slot>, f: nat): (n: nat)
    ensures n <= |es|
    ensures forall i | 0 <= i < n :: es[i].key <= f
    ensures n < |es| ==> es[n].key > f
  {
    if es == [] || es[0].key > f then 0 else 1 + Pos(es[1..], f)
  }

  predicate JoinsPrev(s: Slot, f: nat, p: nat) {
    && Add32(s.key, Len(s)) == f
    && Add32(s.addr, Len(s)) == p
    && Len(s) < INIT_MAX
  }

  predicate JoinsNext(s: Slot, f: nat, p: nat) {
    && s.key == Add32(f, 1)
    && s.addr == Add32(p, 1)
    && Len(s) < INIT_MAX
  }

  /** The entries of a leaf after `leaf_insert`, before any split. */
  function LeafPut(es: seq<Slot>, f: nat, p: nat): seq<Slot> {
    var pos := Pos(es, f);
    if pos > 0 && f < End(es[pos - 1]) then es
    else if pos > 0 && JoinsPrev(es[pos - 1], f, p) then es[pos - 1 := Grow(es[pos - 1])]
    else if pos < |es| && JoinsNext(es[pos], f, p) then es[pos := Prepend(es[pos], f, p)]
    else es[..pos] + [NewExtent(f, p)] + es[pos..]
  }

  /** after is before plus exactly f to p. */
  ghost predicate MapAdds(before: seq<Slot>, after: seq<Slot>, f: nat, p: nat) {
    forall g: nat :: Find(after, g) == if g == f then Some(p) else Find(before, g)
  }

  // ----- searching

  lemma {:induction false} FindConcat(a: seq<Slot>, b: seq<Slot>, f: nat)
    ensures Find(a + b, f) == if Find(a, f).Some? then Find(a, f) else Find(b, f)
  {
    if a == [] {
      assert a + b == b;
    } else {
      FindConcat(a[1..], b, f);
      assert (a + b)[1..] == a[1..] + b;
    }
  }

  lemma {:induction false} FindNone(es: seq<Slot>, f: nat)
    ensures Find(es, f) == None <==> forall i | 0 <= i < |es| :: !Covers(es[i], f)
  {
    if es != [] {
      FindNone(es[1..], f);
      assert forall i | 1 <= i < |es| :: es[i] == es[1..][i - 1];
      assert forall i | 0 <= i < |es| - 1 :: es[1..][i] == es[i + 1];
    }
  }

  /** In a sorted list the search finds the entry that covers f, wherever it is. */
  lemma {:induction false} FindAt(es: seq<Slot>, i: nat, f: nat)
    requires i < |es| && Covers(es[i], f)
    requires forall j | 0 <= j < i :: !Covers(es[j], f)
    ensures Find(es, f) == Some(Add32(es[i].addr, f - es[i].key))
  {
    if i > 0 {
      assert es[0] == es[0];
      assert es[1..][i - 1] == es[i];
      assert forall j | 0 <= j < i - 1 :: es[1..][j] == es[j + 1];
      FindAt(es[1..], i - 1, f);
    }
  }

  lemma FindOne(s: Slot, f: nat)
    ensures Find([s], f) == if Covers(s, f) then Some(Add32(s.addr, f - s.key)) else None
  {
    assert [s][1..] == [];
    assert Find([], f) == None;
  }

  /** Replacing the middle of a list replaces only what the middle decides. */
  lemma MapAddsMiddle(a: seq<Slot>, m: seq<Slot>, m': seq<Slot>, b: seq<Slot>, f: nat, p: nat)
    requires MapAdds(m, m', f, p)
    requires Find(a + m + b, f) == None
    ensures MapAdds(a + m + b, a + m' + b, f, p)
  {
    FindConcat(a + m, b, f);
    FindConcat(a, m, f);
    forall g: nat
      ensures Find(a + m' + b, g) == if g == f then Some(p) else Find(a + m + b, g)
    {
      FindConcat(a + m, b, g);
      FindConcat(a, m, g);
      FindConcat(a + m', b, g);
      FindConcat(a, m', g);
    }
  }

  // ----- sorted lists

  lemma RaiseLo(es: seq<Slot>, lo: nat, lo': nat, hi: nat)
    requires SortedIn(es, lo, hi)
    requires lo' <= if es == [] then hi else es[0].key
    ensures SortedIn(es, lo', hi)
  {
  }

  lemma {:induction false} SortedLoHi(es: seq<Slot>, lo: nat, hi: nat)
    requires SortedIn(es, lo, hi)
    ensures lo <= hi
  {
    if es != [] {
      SortedLoHi(es[1..], es[0].key + Len(es[0]), hi);
    }
  }

  lemma {:induction false} RaiseHi(es: seq<Slot>, lo: nat, hi: nat, hi': nat)
    requires SortedIn(es, lo, hi) && hi <= hi'
    ensures SortedIn(es, lo, hi')
  {
    if es != [] {
      RaiseHi(es[1..], es[0].key + Len(es[0]), hi, hi');
    }
  }

  lemma {:induction false} SortedConcat(a: seq<Slot>, b: seq<Slot>, lo: nat, m: nat, hi: nat)
    requires SortedIn(a, lo, m) && SortedIn(b, m, hi)
    ensures SortedIn(a + b, lo, hi)
  {
    if a == [] {
      assert a + b == b;
      SortedLoHi(b, m, hi);
      RaiseLo(b, m, lo, hi);
    } else {
      assert (a + b)[1..] == a[1..] + b;
      SortedConcat(a[1..], b, a[0].key + Len(a[0]), m, hi);
    }
  }

  function EndBefore(es: seq<Slot>, i: nat, lo: nat): nat
    requires i <= |es|
  {
    if i == 0 then lo else es[i - 1].key + Len(es[i - 1])
  }

  lemma {:induction false} SortedSplit(es: seq<Slot>, i: nat, lo: nat, hi: nat)
    requires SortedIn(es, lo, hi) && i <= |es|
    ensures SortedIn(es[..i], lo, EndBefore(es, i, lo)) && SortedIn(es[i..], EndBefore(es, i, lo), hi)
    ensures i < |es| ==> SlotWf(es[i]) && EndBefore(es, i, lo) <= es[i].key
  {
    if i == 0 {
      assert es[0..] == es;
    } else {
      SortedSplit(es[1..], i - 1, es[0].key + Len(es[0]), hi);
      assert es[1..][..i - 1] == es[..i][1..];
      assert es[1..][i - 1..] == es[i..];
    }
  }

  /** Nothing in a list that starts at lo covers an earlier block. */
  lemma {:induction false} FindBelow(es: seq<Slot>, lo: nat, hi: nat, f: nat)
    requires SortedIn(es, lo, hi) && (f < lo || hi <= f)
    ensures Find(es, f) == None
  {
    if es != [] {
      SortedLoHi(es[1..], es[0].key + Len(es[0]), hi);
      FindBelow(es[1..], es[0].key + Len(es[0]), hi, f);
    }
  }

  // ----- insertion into one leaf

  lemma PutShape(es: seq<Slot>, lo: nat, hi: nat, f: nat, p: nat)
    requires SortedIn(es, lo, hi) && lo <= f < hi < U32 && 0 < p < U32
    requires Find(es, f) == None
    ensures var pos := Pos(es, f);
            && EndBefore(es, pos, lo) <= f
            && (pos > 0 ==> SlotWf(es[pos - 1]))
            && (pos > 0 && JoinsPrev(es[pos - 1], f, p) ==>
                  es[pos - 1].key + Len(es[pos - 1]) == f && es[pos - 1].addr + Len(es[pos - 1]) == p)
            && (pos < |es| && JoinsNext(es[pos], f, p) ==> es[pos].key == f + 1 && es[pos].addr == p + 1)
  {
    var pos := Pos(es, f);
    FindNone(es, f);
    if pos > 0 {
      SortedSplit(es, pos - 1, lo, hi);
      assert !Covers(es[pos - 1], f);
    }
  }

  lemma SingleAdds(s: Slot, s': Slot, f: nat, p: nat)
    requires SlotWf(s) && SlotWf(s') && Len(s') == Len(s) + 1 && 0 < p < U32
    requires (s'.key == s.key && s'.addr == s.addr && s.key + Len(s) == f && s.addr + Len(s) == p) ||
             (s'.key == f && s.key == f + 1 && s'.addr == p && s.addr == p + 1)
    ensures MapAdds([s], [s'], f, p)
  {
    forall g: nat
      ensures Find([s'], g) == if g == f then Some(p) else Find([s], g)
    {
      FindOne(s, g);
      FindOne(s', g);
    }
  }

  lemma NewAdds(f: nat, p: nat)
    requires f + 1 < U32 && 0 < p < U32
    ensures MapAdds([], [NewExtent(f, p)], f, p)
  {
    forall g: nat
      ensures Find([NewExtent(f, p)], g) == if g == f then Some(p) else Find([], g)
    {
      FindOne(NewExtent(f, p), g);
      assert Find([], g) == None;
    }
  }

  lemma GrowAdds(es: seq<Slot>, i: nat, f: nat, p: nat)
    requires i < |es| && SlotWf(es[i]) && Find(es, f) == None
    requires Len(es[i]) < INIT_MAX && f + 1 < U32 && 0 < p < U32
    requires es[i].key + Len(es[i]) == f && es[i].addr + Len(es[i]) == p
    ensures MapAdds(es, es[i := Grow(es[i])], f, p)
  {
    var s := es[i];
    SingleAdds(s, Grow(s), f, p);
    assert es == es[..i] + [s] + es[i + 1..];
    assert es[i := Grow(s)] == es[..i] + [Grow(s)] + es[i + 1..];
    MapAddsMiddle(es[..i], [s], [Grow(s)], es[i + 1..], f, p);
  }

  lemma PrependAdds(es: seq<Slot>, i: nat, f: nat, p: nat)
    requires i < |es| && SlotWf(es[i]) && Find(es, f) == None
    requires Len(es[i]) < INIT_MAX && es[i].key == f + 1 && es[i].addr == p + 1 && 0 < p < U32
    ensures MapAdds(es, es[i := Prepend(es[i], f, p)], f, p)
  {
    var s := es[i];
    SingleAdds(s, Prepend(s, f, p), f, p);
    assert es == es[..i] + [s] + es[i + 1..];
    assert es[i := Prepend(s, f, p)] == es[..i] + [Prepend(s, f, p)] + es[i + 1..];
    MapAddsMiddle(es[..i], [s], [Prepend(s, f, p)], es[i + 1..], f, p);
  }

  lemma PlaceAdds(es: seq<Slot>, i: nat, f: nat, p: nat)
    requires i <= |es| && Find(es, f) == None && f + 1 < U32 && 0 < p < U32
    ensures MapAdds(es, es[..i] + [NewExtent(f, p)] + es[i..], f, p)
  {
    NewAdds(f, p);
    assert es == es[..i] + [] + es[i..];
    MapAddsMiddle(es[..i], [], [NewExtent(f, p)], es[i..], f, p);
  }

  /** Inserting into a sorted leaf an unmapped block adds exactly that mapping. */
  lemma PutAdds(es: seq<Slot>, lo: nat, hi: nat, f: nat, p: nat)
    requires SortedIn(es, lo, hi) && lo <= f < hi < U32 && 0 < p < U32
    requires Find(es, f) == None
    ensures MapAdds(es, LeafPut(es, f, p), f, p)
  {
    var pos := Pos(es, f);
    PutShape(es, lo, hi, f, p);
    if pos > 0 && JoinsPrev(es[pos - 1], f, p) {
      GrowAdds(es, pos - 1, f, p);
    } else if pos < |es| && JoinsNext(es[pos], f, p) {
      SortedSplit(es, pos, lo, hi);
      PrependAdds(es, pos, f, p);
    } else {
      PlaceAdds(es, pos, f, p);
    }
  }

  lemma ConsSorted(s: Slot, es: seq<Slot>, lo: nat, hi: nat)
    requires SlotWf(s) && lo <= s.key && SortedIn(es, s.key + Len(s), hi)
    ensures SortedIn([s] + es, lo, hi)
  {
    assert ([s] + es)[1..] == es;
  }

  lemma PlaceSorted(es: seq<Slot>, i: nat, j: nat, s: Slot, lo: nat, hi: nat)
    requires SortedIn(es, lo, hi) && i <= j <= |es|
    requires SlotWf(s) && EndBefore(es, i, lo) <= s.key
    requires s.key + Len(s) <= if j == |es| then hi else es[j].key
    ensures SortedIn(es[..i] + [s] + es[j..], lo, hi)
  {
    hide SortedIn, SlotWf, Len;
    SortedSplit(es, i, lo, hi);
    SortedSplit(es, j, lo, hi);
    var e := s.key + Len(s);
    RaiseLo(es[j..], EndBefore(es, j, lo), e, hi);
    ConsSorted(s, es[j..], EndBefore(es, i, lo), hi);
    SortedConcat(es[..i], [s] + es[j..], lo, EndBefore(es, i, lo), hi);
    assert es[..i] + ([s] + es[j..]) == es[..i] + [s] + es[j..];
  }

  lemma GrowSorted(es: seq<Slot>, i: nat, lo: nat, hi: nat)
    requires SortedIn(es, lo, hi) && i < |es| && SlotWf(Grow(es[i]))
    requires es[i].key + Len(es[i]) + 1 <= if i + 1 == |es| then hi else es[i + 1].key
    ensures SortedIn(es[i := Grow(es[i])], lo, hi)
  {
    SortedSplit(es, i, lo, hi);
    PlaceSorted(es, i, i + 1, Grow(es[i]), lo, hi);
    assert es[i := Grow(es[i])] == es[..i] + [Grow(es[i])] + es[i + 1..];
  }

  lemma PrependSorted(es: seq<Slot>, i: nat, f: nat, p: nat, lo: nat, hi: nat)
    requires SortedIn(es, lo, hi) && i < |es| && SlotWf(Prepend(es[i], f, p))
    requires es[i].key == f + 1 && EndBefore(es, i, lo) <= f && Len(es[i]) < INIT_MAX
    ensures SortedIn(es[i := Prepend(es[i], f, p)], lo, hi)
  {
    var s := Prepend(es[i], f, p);
    SortedSplit(es, i + 1, lo, hi);
    if i + 1 == |es| { SortedLoHi(es[i + 1..], es[i].key + Len(es[i]), hi); }
    PlaceSorted(es, i, i + 1, s, lo, hi);
    assert es[i := s] == es[..i] + [s] + es[i + 1..];
  }

  /** ... and keeps the leaf sorted and disjoint, growing it by at most one entry. */
  lemma PutSorted(es: seq<Slot>, lo: nat, hi: nat, f: nat, p: nat)
    requires SortedIn(es, lo, hi) && lo <= f < hi < U32 && 0 < p < U32
    requires Find(es, f) == None
    ensures SortedIn(LeafPut(es, f, p), lo, hi)
    ensures |es| <= |LeafPut(es, f, p)| <= |es| + 1 && LeafPut(es, f, p) != []
    ensures LeafPut(es, f, p)[0].key == if es == [] then f else Min(f, es[0].key)
  {
    hide SortedIn;
    var pos := Pos(es, f);
    PutShape(es, lo, hi, f, p);
    if pos > 0 && JoinsPrev(es[pos - 1], f, p) {
      GrowSorted(es, pos - 1, lo, hi);
    } else if pos < |es| && JoinsNext(es[pos], f, p) {
      SortedSplit(es, pos, lo, hi);
      PrependSorted(es, pos, f, p, lo, hi);
    } else {
      PlaceSorted(es, pos, pos, NewExtent(f, p), lo, hi);
    }
  }

  // ----- how many entries it takes

  /** The extent can take file block f in disk block p at its end or at its start. */
  predicate Extends(s: Slot, f: nat, p: nat) {
    && Len(s) < INIT_MAX
    && ((s.key + Len(s) == f && Add32(s.addr, Len(s)) == p) || (s.key == f + 1 && s.addr == Add32(p, 1)))
  }

  /** No extent has f already, and none can take it. */
  predicate NeedsEntry(es: seq<Slot>, f: nat, p: nat) {
    forall s | s in es :: !(s.key <= f < s.key + Len(s)) && !Extends(s, f, p)
  }

  lemma {:induction false} Increasing(es: seq<Slot>, lo: nat, hi: nat, i: nat, j: nat)
    requires SortedIn(es, lo, hi) && i < j < |es|
    ensures SlotWf(es[i]) && SlotWf(es[j]) && es[i].key + Len(es[i]) <= es[j].key
    decreases j
  {
    hide SortedIn;
    SortedSplit(es, j, lo, hi);
    SortedSplit(es, i, lo, hi);
    if i + 1 < j {
      Increasing(es, lo, hi, i, j - 1);
    }
  }

  /** Only the extent before f can have it or be lengthened, and only the one behind it be started
      earlier. */
  lemma OnlyNeighbours(es: seq<Slot>, lo: nat, hi: nat, f: nat, i: nat)
    requires SortedIn(es, lo, hi) && i < |es| && (Pos(es, f) > 0 ==> f >= End(es[Pos(es, f) - 1]))
    ensures i + 1 != Pos(es, f) ==> !(es[i].key <= f < es[i].key + Len(es[i])) && es[i].key + Len(es[i]) != f
    ensures i != Pos(es, f) ==> es[i].key != f + 1
  {
    hide SortedIn;
    var pos := Pos(es, f);
    SortedSplit(es, i, lo, hi);
    if i + 1 < pos {
      Increasing(es, lo, hi, i, pos - 1);
    } else if pos < i {
      Increasing(es, lo, hi, pos, i);
    }
  }

  /** A block that is not mapped takes an entry of its own if and only if no extent can take it. */
  lemma PutCount(es: seq<Slot>, lo: nat, hi: nat, f: nat, p: nat)
    requires SortedIn(es, lo, hi)
    ensures |LeafPut(es, f, p)| == |es| + if NeedsEntry(es, f, p) then 1 else 0
  {
    hide SortedIn;
    var pos := Pos(es, f);
    if pos > 0 {
      SortedSplit(es, pos - 1, lo, hi);
      assert es[pos - 1] in es;
    }
    if pos < |es| {
      SortedSplit(es, pos, lo, hi);
      assert es[pos] in es;
    }
    if |LeafPut(es, f, p)| > |es| {
      forall s | s in es ensures !(s.key <= f < s.key + Len(s)) && !Extends(s, f, p) {
        var i :| 0 <= i < |es| && es[i] == s;
        OnlyNeighbours(es, lo, hi, f, i);
        SortedSplit(es, i, lo, hi);
      }
    }
  }
}

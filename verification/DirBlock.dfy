/** Directory blocks as bytes: records that tile the block up to its limit, the slot search of
    `ext4_add_entry` and what adding and removing do to the entries (kernel/fs/ext4.c:1735-1931). */
module DirBlock {
  import opened Words
  import opened Bytes

  const HEADER := 8

  datatype Entry = Entry(ino: nat, name: Block, kind: Byte)

  /** The space a record with a name of nl bytes takes: `(8 + nl + 3) & ~3`. */
  function Space(nl: nat): (n: nat)
    ensures HEADER + nl <= n < HEADER + nl + 4 && n % 4 == 0
  {
    (HEADER + nl + 3) / 4 * 4
  }

  // ----- the record at an offset

  /** `rec_len`; a header that would run over the end of the page counts as malformed. */
  function RecLen(blk: Block, off: nat): nat {
    if off + HEADER <= |blk| then Le16(blk, off + 4) else 0
  }

  predicate Good(blk: Block, limit: nat, off: nat)
  {
    HEADER <= RecLen(blk, off) && off + RecLen(blk, off) <= limit
  }

  function Ino(blk: Block, off: nat): nat
    requires off + HEADER <= |blk|
  {
    Le32(blk, off)
  }

  function NameLen(blk: Block, off: nat): nat
    requires off + HEADER <= |blk|
  {
    blk[off + 6]
  }

  /** The name of a used record lies within the record. */
  predicate Fit(blk: Block, off: nat)
    requires off + HEADER <= |blk|
  {
    Ino(blk, off) != 0 ==> HEADER + NameLen(blk, off) <= RecLen(blk, off)
  }

  predicate Listed(blk: Block, off: nat)
    requires off + HEADER <= |blk|
  {
    Ino(blk, off) != 0 && NameLen(blk, off) > 0
  }

  function EntryAt(blk: Block, off: nat): Entry
    requires off + HEADER <= |blk| && off + HEADER + NameLen(blk, off) <= |blk|
  {
    Entry(Ino(blk, off), blk[off + HEADER..off + HEADER + NameLen(blk, off)], blk[off + 7])
  }

  // ----- walking the block

  predicate Fits(blk: Block, limit: nat, off: nat)
    decreases limit - off
  {
    off < limit && Good(blk, limit, off) ==> Fit(blk, off) && Fits(blk, limit, off + RecLen(blk, off))
  }

  /** The records fill the block from off exactly up to the limit. */
  predicate Tiled(blk: Block, limit: nat, off: nat)
    decreases limit - off
  {
    off == limit || (off < limit && Good(blk, limit, off) && Tiled(blk, limit, off + RecLen(blk, off)))
  }

  /** What the record at off contributes. */
  function Here(blk: Block, limit: nat, off: nat): seq<Entry>
    requires limit <= |blk| && Good(blk, limit, off) && Fit(blk, off)
  {
    if Listed(blk, off) then [EntryAt(blk, off)] else []
  }

  /** The entries from off on. */
  function Entries(blk: Block, limit: nat, off: nat): seq<Entry>
    requires limit <= |blk| && Fits(blk, limit, off)
    decreases limit - off
  {
    if off < limit && Good(blk, limit, off) then Here(blk, limit, off) + Entries(blk, limit, off + RecLen(blk, off))
    else []
  }

  /** The walk from off gets to t. */
  predicate Reaches(blk: Block, limit: nat, off: nat, t: nat)
    decreases limit - off
  {
    off == t || (off < t && off < limit && Good(blk, limit, off) && Reaches(blk, limit, off + RecLen(blk, off), t))
  }

  /** The entries between off and t. */
  function Between(blk: Block, limit: nat, off: nat, t: nat): seq<Entry>
    requires limit <= |blk| && Fits(blk, limit, off) && Reaches(blk, limit, off, t)
    decreases limit - off
  {
    if off == t then [] else Here(blk, limit, off) + Between(blk, limit, off + RecLen(blk, off), t)
  }

  predicate Same(a: Block, b: Block, from: nat, to: nat) {
    |a| == |b| && forall k | from <= k < to && k < |a| :: a[k] == b[k]
  }

  /** A record depends on its own bytes only. */
  lemma SameRecord(a: Block, b: Block, limit: nat, off: nat)
    requires Same(a, b, off, off + HEADER) && limit <= |a|
    ensures RecLen(a, off) == RecLen(b, off) && (Good(a, limit, off) <==> Good(b, limit, off))
    ensures off + HEADER <= |a| ==>
            (Fit(a, off) <==> Fit(b, off)) && Ino(a, off) == Ino(b, off) && NameLen(a, off) == NameLen(b, off)
    ensures Good(a, limit, off) && Fit(a, off) && Same(a, b, off, off + RecLen(a, off)) ==>
            Here(a, limit, off) == Here(b, limit, off)
  {
    if off + HEADER <= |a| {
      assert a[off] == b[off] && a[off + 1] == b[off + 1] && a[off + 2] == b[off + 2] && a[off + 3] == b[off + 3];
      assert a[off + 4] == b[off + 4] && a[off + 5] == b[off + 5] && a[off + 6] == b[off + 6]
             && a[off + 7] == b[off + 7];
      if Good(a, limit, off) && Fit(a, off) && Same(a, b, off, off + RecLen(a, off)) && Listed(a, off) {
        assert EntryAt(a, off).name == EntryAt(b, off).name;
      }
    }
  }

  /** Changing nothing from off up to the limit changes nothing there: bytes behind the limit,
      such as the checksum tail, do not matter. */
  lemma {:induction false} SameRest(a: Block, b: Block, limit: nat, off: nat)
    requires Same(a, b, off, limit) && limit <= |a|
    ensures Fits(a, limit, off) <==> Fits(b, limit, off)
    ensures Tiled(a, limit, off) <==> Tiled(b, limit, off)
    ensures Fits(a, limit, off) ==> Entries(a, limit, off) == Entries(b, limit, off)
    decreases limit - off
  {
    hide RecLen, Ino, NameLen, Here, Fit;
    if off + HEADER <= limit {
      SameRecord(a, b, limit, off);
      if Good(a, limit, off) {
        SameRest(a, b, limit, off + RecLen(a, off));
      }
    }
  }

  /** Changing nothing before t keeps the walk up to t. */
  lemma {:induction false} SamePrefix(a: Block, b: Block, limit: nat, off: nat, t: nat)
    requires Same(a, b, off, t) && t <= limit <= |a| && Fits(a, limit, off) && Reaches(a, limit, off, t)
    ensures Reaches(b, limit, off, t)
    ensures Fits(b, limit, t) ==>
            Fits(b, limit, off) && Entries(b, limit, off) == Between(a, limit, off, t) + Entries(b, limit, t)
    ensures Tiled(b, limit, t) <==> Tiled(b, limit, off)
    decreases limit - off
  {
    hide RecLen, Ino, NameLen, Here, Fit;
    if off < t {
      ReachesNext(a, limit, off, t);
      SameRecord(a, b, limit, off);
      SamePrefix(a, b, limit, off + RecLen(a, off), t);
      if Fits(b, limit, t) {
        assert Entries(b, limit, off) == Here(a, limit, off) + Entries(b, limit, off + RecLen(a, off));
      }
    }
  }

  lemma {:induction false} ReachesNext(blk: Block, limit: nat, off: nat, t: nat)
    requires Reaches(blk, limit, off, t) && off < t
    ensures off + RecLen(blk, off) <= t
    decreases t - off
  {
    if off + RecLen(blk, off) < t {
      ReachesNext(blk, limit, off + RecLen(blk, off), t);
    }
  }

  // ----- adding

  /** A new record over [off, off + rl). */
  function PutRec(blk: Block, off: nat, e: Entry, rl: nat): (r: Block)
    requires e.ino < U32 && rl < U16 && |e.name| < 256 && off + HEADER + |e.name| <= |blk|
    ensures |r| == |blk|
  {
    blk[..off] + PutLe32(e.ino) + PutLe16(rl) + [|e.name|, e.kind] + e.name + blk[off + HEADER + |e.name|..]
  }

  /** `de->rec_len = rl`. */
  function PutLen(blk: Block, off: nat, rl: nat): (r: Block)
    requires rl < U16 && off + HEADER <= |blk|
    ensures |r| == |blk|
  {
    blk[..off + 4] + PutLe16(rl) + blk[off + 6..]
  }

  /** What a record just written reads as, and what it leaves alone. */
  lemma PutRecReads(blk: Block, off: nat, e: Entry, rl: nat)
    requires e.ino < U32 && rl < U16 && |e.name| < 256 && off + HEADER + |e.name| <= |blk|
    ensures var b := PutRec(blk, off, e, rl);
            && RecLen(b, off) == rl && Ino(b, off) == e.ino && NameLen(b, off) == |e.name| && EntryAt(b, off) == e
            && Same(blk, b, 0, off) && Same(blk, b, off + HEADER + |e.name|, |blk|)
  {
    Le32RoundTrip(e.ino);
    Le16RoundTrip(rl);
    hide PutLe32, PutLe16;
    var b := PutRec(blk, off, e, rl);
    var p, q := PutLe32(e.ino), PutLe16(rl);
    assert b[off] == p[0] && b[off + 1] == p[1] && b[off + 2] == p[2] && b[off + 3] == p[3];
    assert b[off + 4] == q[0] && b[off + 5] == q[1];
    assert b[off + 6] == |e.name| && b[off + 7] == e.kind;
    assert b[off + HEADER..off + HEADER + |e.name|] == e.name;
  }

  lemma PutLenReads(blk: Block, off: nat, rl: nat)
    requires rl < U16 && off + HEADER <= |blk|
    ensures var b := PutLen(blk, off, rl);
            && RecLen(b, off) == rl && Ino(b, off) == Ino(blk, off) && NameLen(b, off) == NameLen(blk, off)
            && Same(blk, b, 0, off) && Same(blk, b, off + 6, |blk|)
  {
    Le16RoundTrip(rl);
    hide PutLe16;
    var b := PutLen(blk, off, rl);
    var q := PutLe16(rl);
    assert b[off + 4] == q[0] && b[off + 5] == q[1] && b[off + 6] == blk[off + 6];
    assert b[off] == blk[off] && b[off + 1] == blk[off + 1] && b[off + 2] == blk[off + 2] && b[off + 3] == blk[off + 3];
  }

  /** Where `ext4_add_entry` puts a record: over a free or malformed rest, or behind a used record. */
  datatype Slot = NoSlot | Take(off: nat, rl: nat) | Split(off: nat)

  function FindSlot(blk: Block, limit: nat, need: nat, off: nat): Slot
    decreases limit - off
  {
    if off >= limit then NoSlot
    else if !Good(blk, limit, off) then (if limit - off >= need then Take(off, limit - off) else NoSlot)
    else
      var rl := RecLen(blk, off);
      var used := Space(NameLen(blk, off));
      if Ino(blk, off) == 0 && rl >= need then Take(off, rl)
      else if Ino(blk, off) != 0 && used < rl && rl - used >= need then Split(off)
      else FindSlot(blk, limit, need, off + rl)
  }

  /** The block with the entry in the slot. */
  function PutIn(blk: Block, e: Entry, slot: Slot): (r: Block)
    requires !slot.NoSlot? && e.ino < U32 && |e.name| < 256
    requires slot.Take? ==> slot.rl < U16 && slot.off + HEADER + |e.name| <= |blk|
    requires slot.Split? ==> slot.off + HEADER <= |blk| && Space(NameLen(blk, slot.off)) <= RecLen(blk, slot.off)
    requires slot.Split? ==> slot.off + Space(NameLen(blk, slot.off)) + HEADER + |e.name| <= |blk|
  {
    match slot
    case Take(off, rl) => PutRec(blk, off, e, rl)
    case Split(off) =>
      var used := Space(NameLen(blk, off));
      PutRec(PutLen(blk, off, used), off + used, e, RecLen(blk, off) - used)
  }

  /** The record at t, or the malformed rest that begins there, has room for a record of need bytes. */
  predicate RoomAt(blk: Block, limit: nat, need: nat, t: nat) {
    if !Good(blk, limit, t) then t + need <= limit
    else if Ino(blk, t) == 0 then need <= RecLen(blk, t)
    else Space(NameLen(blk, t)) + need <= RecLen(blk, t)
  }

  /** No record that the walk from off gets to before end has room. */
  ghost predicate NoRoom(blk: Block, limit: nat, need: nat, off: nat, end: nat) {
    forall t: nat | t < end && Reaches(blk, limit, off, t) :: !RoomAt(blk, limit, need, t)
  }

  /** What the search found: nothing, if no record has room, or the first one that has. */
  ghost predicate SlotOk(blk: Block, limit: nat, need: nat, off: nat, slot: Slot) {
    match slot
    case NoSlot => NoRoom(blk, limit, need, off, limit)
    case Take(t, rl) =>
      && Reaches(blk, limit, off, t) && t < limit && need <= rl && t + rl <= limit
      && (if Good(blk, limit, t) then Ino(blk, t) == 0 && rl == RecLen(blk, t) else t + rl == limit)
      && NoRoom(blk, limit, need, off, t)
    case Split(t) =>
      && Reaches(blk, limit, off, t) && t < limit && Good(blk, limit, t) && Ino(blk, t) != 0
      && Space(NameLen(blk, t)) + need <= RecLen(blk, t)
      && NoRoom(blk, limit, need, off, t)
  }

  lemma {:induction false} FindSlotOk(blk: Block, limit: nat, need: nat, off: nat)
    requires need > 0
    ensures SlotOk(blk, limit, need, off, FindSlot(blk, limit, need, off))
    decreases limit - off
  {
    hide RecLen, Ino, NameLen, Space;
    if off < limit && Good(blk, limit, off) {
      var next := off + RecLen(blk, off);
      FindSlotOk(blk, limit, need, next);
      var slot := FindSlot(blk, limit, need, next);
      if !RoomAt(blk, limit, need, off) {
        NoRoomFrom(blk, limit, need, off, if slot.NoSlot? then limit else slot.off);
      }
      if !slot.NoSlot? {
        ReachesUp(blk, limit, next, slot.off);
      }
    }
  }

  /** The record at off, and those behind it. */
  lemma NoRoomFrom(blk: Block, limit: nat, need: nat, off: nat, end: nat)
    requires off < limit && Good(blk, limit, off) && !RoomAt(blk, limit, need, off)
    requires NoRoom(blk, limit, need, off + RecLen(blk, off), end)
    ensures NoRoom(blk, limit, need, off, end)
  {
    hide RecLen, RoomAt;
    forall t: nat | t < end && Reaches(blk, limit, off, t) ensures !RoomAt(blk, limit, need, t) {
      if t != off {
        assert Reaches(blk, limit, off + RecLen(blk, off), t);
      }
    }
  }

  /** There is a slot if and only if some record that the walk gets to has room. */
  lemma SlotIff(blk: Block, limit: nat, need: nat)
    requires need > 0
    ensures FindSlot(blk, limit, need, 0).NoSlot? <==> NoRoom(blk, limit, need, 0, limit)
  {
    hide FindSlot, RecLen, Ino, NameLen, Space;
    FindSlotOk(blk, limit, need, 0);
  }

  lemma ReachesUp(blk: Block, limit: nat, off: nat, t: nat)
    requires Reaches(blk, limit, off, t)
    ensures off <= t
  {
  }

  /** The entry as iteration shows it: a record with inode 0 is free. */
  function Shown(e: Entry): seq<Entry> { if e.ino != 0 then [e] else [] }

  /** The old entries in order, with the new one at position at. */
  ghost predicate Inserted(before: seq<Entry>, after: seq<Entry>, e: Entry, at: nat) {
    at <= |before| && after == before[..at] + Shown(e) + before[at..]
  }

  lemma InsertedAt(pre: seq<Entry>, post: seq<Entry>, e: Entry)
    ensures Inserted(pre + post, pre + Shown(e) + post, e, |pre|)
  {
    assert (pre + post)[..|pre|] == pre && (pre + post)[|pre|..] == post;
  }

  /** The walk at one offset, good or not. */
  lemma Step(blk: Block, limit: nat, off: nat)
    requires off < limit <= |blk|
    ensures Good(blk, limit, off) ==>
              var next := off + RecLen(blk, off);
              && (Fits(blk, limit, off) <==> Fit(blk, off) && Fits(blk, limit, next))
              && (Fits(blk, limit, off) ==>
                  Entries(blk, limit, off) == Here(blk, limit, off) + Entries(blk, limit, next))
              && (Tiled(blk, limit, off) <==> Tiled(blk, limit, next))
    ensures !Good(blk, limit, off) ==>
            Fits(blk, limit, off) && Entries(blk, limit, off) == [] && !Tiled(blk, limit, off)
  {
  }

  lemma End(blk: Block, limit: nat)
    requires limit <= |blk|
    ensures Fits(blk, limit, limit) && Entries(blk, limit, limit) == [] && Tiled(blk, limit, limit)
  {
  }

  /** A free record shows nothing, a used one its entry. */
  lemma HereIs(blk: Block, limit: nat, off: nat)
    requires limit <= |blk| && Good(blk, limit, off) && Fit(blk, off)
    ensures Ino(blk, off) == 0 ==> Here(blk, limit, off) == []
    ensures 0 < NameLen(blk, off) && off + HEADER + NameLen(blk, off) <= |blk| ==>
            Here(blk, limit, off) == Shown(EntryAt(blk, off))
  {
  }

  /** Replacing the record or rest at t: the block before and after. */
  lemma Replaced(blk: Block, b: Block, limit: nat, off: nat, t: nat)
    requires limit <= |blk| && Same(blk, b, 0, t) && t <= limit
    requires Fits(blk, limit, off) && Reaches(blk, limit, off, t) && Fits(b, limit, t)
    ensures Fits(b, limit, off) && Fits(blk, limit, t)
    ensures Entries(blk, limit, off) == Between(blk, limit, off, t) + Entries(blk, limit, t)
    ensures Entries(b, limit, off) == Between(blk, limit, off, t) + Entries(b, limit, t)
    ensures Tiled(b, limit, t) <==> Tiled(b, limit, off)
    ensures Tiled(blk, limit, t) <==> Tiled(blk, limit, off)
  {
    hide Fits, Reaches, Entries, Tiled, Between;
    ReachesFits(blk, limit, off, t);
    SamePrefix(blk, blk, limit, off, t);
    SamePrefix(blk, b, limit, off, t);
  }

  /** Adding over a free record or a malformed rest. */
  lemma AddTake(blk: Block, limit: nat, e: Entry, off: nat, t: nat, rl: nat) returns (at: nat)
    requires limit <= |blk| && limit < U16 && e.ino < U32 && 0 < |e.name| < 256
    requires Fits(blk, limit, off) && SlotOk(blk, limit, Space(|e.name|), off, Take(t, rl))
    ensures var b := PutRec(blk, t, e, rl);
            && Fits(b, limit, off) && Inserted(Entries(blk, limit, off), Entries(b, limit, off), e, at)
            && (Tiled(blk, limit, off) || !Good(blk, limit, t) ==> Tiled(b, limit, off))
  {
    hide RecLen, Ino, NameLen, Space, PutRec, EntryAt, Fits, Reaches, Entries, Tiled, Between, Here;
    var b := PutRec(blk, t, e, rl);
    PutRecReads(blk, t, e, rl);
    SameRest(blk, b, limit, t + rl);
    ReachesFits(blk, limit, off, t);
    Step(blk, limit, t);
    Step(b, limit, t);
    End(b, limit);
    HereIs(b, limit, t);
    if Good(blk, limit, t) {
      HereIs(blk, limit, t);
    }
    Replaced(blk, b, limit, off, t);
    var pre, post := Between(blk, limit, off, t), Entries(blk, limit, t);
    assert pre + (Shown(e) + post) == pre + Shown(e) + post;
    InsertedAt(pre, post, e);
    at := |pre|;
  }

  /** Adding behind the name of a used record. */
  lemma AddSplit(blk: Block, limit: nat, e: Entry, off: nat, t: nat) returns (at: nat)
    requires limit <= |blk| && limit < U16 && e.ino < U32 && 0 < |e.name| < 256
    requires Fits(blk, limit, off) && SlotOk(blk, limit, Space(|e.name|), off, Split(t))
    ensures var b := PutIn(blk, e, Split(t));
            && Fits(b, limit, off) && Inserted(Entries(blk, limit, off), Entries(b, limit, off), e, at)
            && (Tiled(blk, limit, off) ==> Tiled(b, limit, off))
  {
    hide RecLen, Ino, NameLen, Space, PutRec, PutLen, EntryAt, Fits, Reaches, Entries, Tiled, Between, Here;
    var used, rl := Space(NameLen(blk, t)), RecLen(blk, t);
    var c := PutLen(blk, t, used);
    var b := PutRec(c, t + used, e, rl - used);
    PutLenReads(blk, t, used);
    PutRecReads(c, t + used, e, rl - used);
    SameRecord(c, b, limit, t);
    SameRest(blk, b, limit, t + rl);
    ReachesFits(blk, limit, off, t);
    Step(blk, limit, t);
    Step(b, limit, t);
    Step(b, limit, t + used);
    HereIs(b, limit, t + used);
    Shortened(blk, b, limit, t);
    Replaced(blk, b, limit, off, t);
    var pre, here, post := Between(blk, limit, off, t), Here(blk, limit, t), Entries(blk, limit, t + rl);
    assert pre + (here + (Shown(e) + post)) == (pre + here) + Shown(e) + post;
    assert pre + (here + post) == (pre + here) + post;
    InsertedAt(pre + here, post, e);
    at := |pre + here|;
  }

  /** A record whose length alone changed shows the same. */
  lemma Shortened(a: Block, b: Block, limit: nat, t: nat)
    requires limit <= |a| == |b| && Good(a, limit, t) && Good(b, limit, t) && Fit(a, t) && Fit(b, t)
    requires Ino(a, t) == Ino(b, t) && NameLen(a, t) == NameLen(b, t)
    requires Same(a, b, t + 6, t + HEADER + NameLen(a, t))
    ensures Here(a, limit, t) == Here(b, limit, t)
  {
    if Listed(a, t) {
      assert EntryAt(a, t).name == EntryAt(b, t).name;
    }
  }

  lemma {:induction false} ReachesFits(blk: Block, limit: nat, off: nat, t: nat)
    requires Reaches(blk, limit, off, t) && Fits(blk, limit, off)
    ensures Fits(blk, limit, t) && (Tiled(blk, limit, off) ==> Tiled(blk, limit, t))
    decreases limit - off
  {
    hide RecLen, Ino, NameLen, Fit;
    if off != t {
      ReachesFits(blk, limit, off + RecLen(blk, off), t);
    }
  }

  /** The block a directory grows by: one record that fills it. */
  lemma AddFresh(blk: Block, limit: nat, e: Entry)
    requires limit <= |blk| && Space(255) <= limit < U16 && e.ino < U32 && 0 < |e.name| < 256
    ensures var b := PutRec(blk, 0, e, limit);
            Fits(b, limit, 0) && Tiled(b, limit, 0) && Entries(b, limit, 0) == Shown(e)
  {
    hide RecLen, Ino, NameLen, PutRec, EntryAt, Fits, Entries, Tiled, Here;
    var b := PutRec(blk, 0, e, limit);
    PutRecReads(blk, 0, e, limit);
    Step(b, limit, 0);
    End(b, limit);
    HereIs(b, limit, 0);
  }

  // ----- removing

  predicate Matches(blk: Block, off: nat, name: Block)
    requires off + HEADER <= |blk|
  {
    && Ino(blk, off) != 0 && NameLen(blk, off) == |name|
    && off + HEADER + |name| <= |blk| && blk[off + HEADER..off + HEADER + |name|] == name
  }

  /** The first record that matches, from off on. */
  function FindName(blk: Block, limit: nat, name: Block, off: nat): Option<nat>
    decreases limit - off
  {
    if off >= limit || !Good(blk, limit, off) then None
    else if Matches(blk, off, name) then Some(off)
    else FindName(blk, limit, name, off + RecLen(blk, off))
  }

  /** Inode and name length set to zero. */
  function Cleared(blk: Block, t: nat): (r: Block)
    requires t + HEADER <= |blk|
    ensures |r| == |blk|
  {
    blk[..t] + [0, 0, 0, 0] + blk[t + 4..t + 6] + [0] + blk[t + 7..]
  }

  lemma ClearedReads(blk: Block, t: nat)
    requires t + HEADER <= |blk|
    ensures var b := Cleared(blk, t);
            && RecLen(b, t) == RecLen(blk, t) && Ino(b, t) == 0 && NameLen(b, t) == 0
            && Same(blk, b, 0, t) && Same(blk, b, t + 7, |blk|)
  {
    hide Word;
    var b := Cleared(blk, t);
    assert b[t] == 0 && b[t + 1] == 0 && b[t + 2] == 0 && b[t + 3] == 0 && b[t + 4] == blk[t + 4]
           && b[t + 5] == blk[t + 5];
    ZeroWord();
  }

  lemma ZeroWord()
    ensures Word(0, 0, 0, 0) == 0
  {
  }

  predicate NoName(es: seq<Entry>, name: Block) {
    forall e | e in es :: e.name != name
  }

  /** The search finds the first entry of that name. */
  lemma {:induction false} FindNameOk(blk: Block, limit: nat, name: Block, off: nat)
    requires limit <= |blk| && name != [] && Fits(blk, limit, off)
    ensures match FindName(blk, limit, name, off)
            case None => NoName(Entries(blk, limit, off), name)
            case Some(t) =>
              && t < limit && Reaches(blk, limit, off, t) && Good(blk, limit, t) && Matches(blk, t, name)
              && NoName(Between(blk, limit, off, t), name)
    decreases limit - off
  {
    hide RecLen, Ino, NameLen, Matches, EntryAt;
    if off < limit && Good(blk, limit, off) && !Matches(blk, off, name) {
      var next := off + RecLen(blk, off);
      FindNameOk(blk, limit, name, next);
      NotHere(blk, limit, name, off);
      var r := FindName(blk, limit, name, next);
      if r.Some? {
        ReachesUp(blk, limit, next, r.value);
      }
    }
  }

  lemma NotHere(blk: Block, limit: nat, name: Block, off: nat)
    requires limit <= |blk| && Good(blk, limit, off) && Fit(blk, off) && !Matches(blk, off, name)
    ensures NoName(Here(blk, limit, off), name)
  {
  }

  /** One entry of that name less: the first one, at position at. */
  ghost predicate Removed(before: seq<Entry>, after: seq<Entry>, name: Block, at: nat) {
    && at < |before| && before[at].name == name && NoName(before[..at], name)
    && after == before[..at] + before[at + 1..]
  }

  /** Clearing the record the search found removes exactly that entry. */
  lemma RemoveAt(blk: Block, limit: nat, name: Block, off: nat) returns (at: nat)
    requires limit <= |blk| && name != [] && Fits(blk, limit, off) && FindName(blk, limit, name, off).Some?
    ensures var t := FindName(blk, limit, name, off).value;
            && t + HEADER <= |blk|
            && (var b := Cleared(blk, t);
                && Fits(b, limit, off) && Removed(Entries(blk, limit, off), Entries(b, limit, off), name, at)
                && (Tiled(blk, limit, off) ==> Tiled(b, limit, off)))
  {
    hide RecLen, Ino, NameLen, Cleared, EntryAt, Fits, Reaches, Entries, Tiled, Between, Here, FindName;
    FindNameOk(blk, limit, name, off);
    var t := FindName(blk, limit, name, off).value;
    var b, rl := Cleared(blk, t), RecLen(blk, t);
    ClearedReads(blk, t);
    SameRest(blk, b, limit, t + rl);
    ReachesFits(blk, limit, off, t);
    Step(blk, limit, t);
    Step(b, limit, t);
    HereIs(b, limit, t);
    MatchShows(blk, limit, name, t);
    Replaced(blk, b, limit, off, t);
    var pre, post := Between(blk, limit, off, t), Entries(blk, limit, t + rl);
    var e := EntryAt(blk, t);
    var before := pre + ([e] + post);
    assert before[..|pre|] == pre && before[|pre|] == e && before[|pre| + 1..] == post;
    assert pre + ([] + post) == pre + post;
    at := |pre|;
  }

  lemma MatchShows(blk: Block, limit: nat, name: Block, t: nat)
    requires limit <= |blk| && Good(blk, limit, t) && Fit(blk, t) && Matches(blk, t, name) && name != []
    ensures t + HEADER + NameLen(blk, t) <= |blk| && Here(blk, limit, t) == [EntryAt(blk, t)]
            && EntryAt(blk, t).name == name
  {
  }
}

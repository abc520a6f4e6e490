/** Directories: adding, removing and iterating over the blocks of one directory
    (kernel/fs/ext4.c:1735-1931, 2043-2090). */
module Directory {
  import opened Words
  import opened Bytes
  import opened Division
  import opened DirBlock

  const NAME_MAX := 255

  /** Block size and the limit of records, `dir_limit`. */
  predicate Sizes(bs: nat, limit: nat) {
    Space(NAME_MAX) <= limit <= bs && limit < U16
  }

  predicate DirOk(dir: seq<Block>, bs: nat, limit: nat) {
    Sizes(bs, limit) && forall k | 0 <= k < |dir| :: |dir[k]| == bs && Fits(dir[k], limit, 0)
  }

  /** The entries of all blocks, in order. */
  function All(dir: seq<Block>, bs: nat, limit: nat): seq<Entry>
    requires DirOk(dir, bs, limit)
  {
    if dir == [] then [] else All(dir[..|dir| - 1], bs, limit) + Entries(dir[|dir| - 1], limit, 0)
  }

  lemma {:induction false} AllConcat(a: seq<Block>, c: seq<Block>, bs: nat, limit: nat)
    requires DirOk(a, bs, limit) && DirOk(c, bs, limit)
    ensures DirOk(a + c, bs, limit) && All(a + c, bs, limit) == All(a, bs, limit) + All(c, bs, limit)
  {
    hide Fits, Entries;
    if c == [] {
      assert a + c == a;
    } else {
      var n := |c| - 1;
      assert DirOk(c[..n], bs, limit);
      AllConcat(a, c[..n], bs, limit);
      assert (a + c)[..|a + c| - 1] == a + c[..n] && (a + c)[|a + c| - 1] == c[n];
      var last := Entries(c[n], limit, 0);
      assert All(a, bs, limit) + All(c[..n], bs, limit) + last == All(a, bs, limit) + (All(c[..n], bs, limit) + last);
    }
  }

  lemma AllOne(b: Block, bs: nat, limit: nat)
    requires Sizes(bs, limit) && |b| == bs && Fits(b, limit, 0)
    ensures DirOk([b], bs, limit) && All([b], bs, limit) == Entries(b, limit, 0)
  {
    hide Fits, Entries;
    assert [b][..0] == [] && All([], bs, limit) == [];
  }

  /** One block replaced. */
  lemma AllSet(dir: seq<Block>, k: nat, b: Block, bs: nat, limit: nat)
    requires DirOk(dir, bs, limit) && k < |dir| && |b| == bs && Fits(b, limit, 0)
    ensures DirOk(dir[..k], bs, limit) && DirOk(dir[k + 1..], bs, limit) && DirOk(dir[k := b], bs, limit)
    ensures var pre, post := All(dir[..k], bs, limit), All(dir[k + 1..], bs, limit);
            && All(dir, bs, limit) == pre + Entries(dir[k], limit, 0) + post
            && All(dir[k := b], bs, limit) == pre + Entries(b, limit, 0) + post
  {
    hide Fits, Entries, All;
    AllOne(dir[k], bs, limit);
    AllOne(b, bs, limit);
    AllConcat(dir[..k], [dir[k]], bs, limit);
    AllConcat(dir[..k], [b], bs, limit);
    AllConcat(dir[..k] + [dir[k]], dir[k + 1..], bs, limit);
    AllConcat(dir[..k] + [b], dir[k + 1..], bs, limit);
    assert dir == dir[..k] + [dir[k]] + dir[k + 1..];
    assert dir[k := b] == dir[..k] + [b] + dir[k + 1..];
  }

  lemma InsertedWithin(pre: seq<Entry>, before: seq<Entry>, after: seq<Entry>, post: seq<Entry>, e: Entry, at: nat)
    requires Inserted(before, after, e, at)
    ensures Inserted(pre + before + post, pre + after + post, e, |pre| + at)
  {
    var all := pre + before + post;
    assert all[..|pre| + at] == pre + before[..at] && all[|pre| + at..] == before[at..] + post;
    assert pre + after + post == all[..|pre| + at] + Shown(e) + all[|pre| + at..];
  }

  lemma RemovedWithin(pre: seq<Entry>, before: seq<Entry>, after: seq<Entry>, post: seq<Entry>, name: Block, at: nat)
    requires Removed(before, after, name, at) && NoName(pre, name)
    ensures Removed(pre + before + post, pre + after + post, name, |pre| + at)
  {
    var all := pre + before + post;
    assert all[..|pre| + at] == pre + before[..at] && all[|pre| + at + 1..] == before[at + 1..] + post;
    assert pre + after + post == all[..|pre| + at] + all[|pre| + at + 1..];
  }

  /** Inserting adds the one entry to the multiset, removing takes it out. */
  lemma InsertedCounts(before: seq<Entry>, after: seq<Entry>, e: Entry, at: nat)
    requires Inserted(before, after, e, at) && e.ino != 0
    ensures multiset(after) == multiset(before) + multiset{e}
  {
    assert before == before[..at] + before[at..];
  }

  lemma RemovedCounts(before: seq<Entry>, after: seq<Entry>, name: Block, at: nat)
    requires Removed(before, after, name, at)
    ensures multiset(before) == multiset(after) + multiset{before[at]}
  {
    assert before == before[..at] + [before[at]] + before[at + 1..];
  }

  // ----- iteration

  /** The first listed record in the walk from off. */
  function FirstListed(blk: Block, limit: nat, off: nat): Option<nat>
    decreases limit - off
  {
    if off >= limit || !Good(blk, limit, off) then None
    else if Listed(blk, off) then Some(off)
    else FirstListed(blk, limit, off + RecLen(blk, off))
  }

  /** The inner loop of `ext4_dir_next`: the walk from off, skipping records before min. */
  function ScanFrom(blk: Block, limit: nat, min: nat, off: nat): Option<nat>
    decreases limit - off
  {
    if off >= limit || !Good(blk, limit, off) then None
    else if Listed(blk, off) && off >= min then Some(off)
    else ScanFrom(blk, limit, min, off + RecLen(blk, off))
  }

  lemma {:induction false} ScanSkips(blk: Block, limit: nat, min: nat, off: nat)
    requires Reaches(blk, limit, off, min)
    ensures ScanFrom(blk, limit, min, off) == FirstListed(blk, limit, min)
    decreases limit - off
  {
    hide RecLen, Listed;
    if off < min {
      ScanSkips(blk, limit, min, off + RecLen(blk, off));
    } else {
      ScanAll(blk, limit, min, off);
    }
  }

  lemma {:induction false} ScanAll(blk: Block, limit: nat, min: nat, off: nat)
    requires min <= off
    ensures ScanFrom(blk, limit, min, off) == FirstListed(blk, limit, off)
    decreases limit - off
  {
    hide RecLen, Listed;
    if off < limit && Good(blk, limit, off) {
      ScanAll(blk, limit, min, off + RecLen(blk, off));
    }
  }

  /** The first listed record is the first entry. */
  lemma {:induction false} FirstIs(blk: Block, limit: nat, off: nat)
    requires limit <= |blk| && Fits(blk, limit, off)
    ensures match FirstListed(blk, limit, off)
            case None => Entries(blk, limit, off) == []
            case Some(t) =>
              var next := t + RecLen(blk, t);
              && off <= t && next <= limit && Good(blk, limit, t) && Fit(blk, t) && Listed(blk, t)
              && t + HEADER + NameLen(blk, t) <= |blk|
              && Fits(blk, limit, next) && Reaches(blk, limit, off, next) && next > off
              && Entries(blk, limit, off) == [EntryAt(blk, t)] + Entries(blk, limit, next)
    decreases limit - off
  {
    hide RecLen, Ino, NameLen, EntryAt;
    if off < limit && Good(blk, limit, off) {
      var next := off + RecLen(blk, off);
      FirstIs(blk, limit, next);
      if !Listed(blk, off) {
        assert [] + Entries(blk, limit, next) == Entries(blk, limit, next);
      }
    }
  }

  lemma {:induction false} ReachesOn(blk: Block, limit: nat, off: nat, m: nat, t: nat)
    requires Reaches(blk, limit, off, m) && Reaches(blk, limit, m, t)
    ensures Reaches(blk, limit, off, t)
    decreases limit - off
  {
    hide RecLen;
    if off != m {
      ReachesUp(blk, limit, m, t);
      ReachesOn(blk, limit, off + RecLen(blk, off), m, t);
    }
  }

  /** `ext4_dir_next` from a position: the entry and the next position. */
  function Next(dir: seq<Block>, bs: nat, limit: nat, pos: nat): Option<(Entry, nat)>
    requires DirOk(dir, bs, limit)
    decreases Span(bs, |dir|) - pos
  {
    if pos >= Span(bs, |dir|) then None
    else
      Spot(bs, |dir|, pos);
      var k, w := BlockOf(bs, pos), Within(bs, pos);
      var t := ScanFrom(dir[k], limit, w, 0);
      if t == None then Next(dir, bs, limit, Span(bs, k + 1))
      else
        ScanGood(dir[k], limit, w, 0);
        Some((EntryAt(dir[k], t.value), Span(bs, k) + t.value + RecLen(dir[k], t.value)))
  }

  lemma Spot(bs: nat, n: nat, pos: nat)
    requires bs > 0 && pos < Span(bs, n)
    ensures BlockOf(bs, pos) < n && pos == Span(bs, BlockOf(bs, pos)) + Within(bs, pos)
    ensures Span(bs, BlockOf(bs, pos) + 1) == Span(bs, BlockOf(bs, pos)) + bs
  {
    var q := pos / bs;
    Distribute(q, 1, bs);
    Distribute(n, q - n, bs);
    MulAtLeast(q - n, bs);
  }

  lemma {:induction false} ScanGood(blk: Block, limit: nat, min: nat, off: nat)
    requires limit <= |blk| && Fits(blk, limit, off)
    ensures var t := ScanFrom(blk, limit, min, off);
            t.Some? ==>
              && t.value < limit && Good(blk, limit, t.value) && Listed(blk, t.value) && Fit(blk, t.value)
              && t.value >= min
    decreases limit - off
  {
    hide RecLen, Listed, Fit;
    if off < limit && Good(blk, limit, off) {
      ScanGood(blk, limit, min, off + RecLen(blk, off));
    }
  }

  /** Each call moves the position forward, to the end of a record at most. */
  lemma {:induction false} NextMoves(dir: seq<Block>, bs: nat, limit: nat, pos: nat)
    requires DirOk(dir, bs, limit)
    ensures var r := Next(dir, bs, limit, pos); r.Some? ==> pos < r.value.1 && pos < Span(bs, |dir|)
    decreases Span(bs, |dir|) - pos
  {
    hide BlockOf, Within, Span, Fits, ScanFrom, RecLen, Listed, EntryAt;
    if pos < Span(bs, |dir|) {
      Spot(bs, |dir|, pos);
      var k, w := BlockOf(bs, pos), Within(bs, pos);
      ScanGood(dir[k], limit, w, 0);
      if ScanFrom(dir[k], limit, w, 0) == None {
        NextMoves(dir, bs, limit, Span(bs, k + 1));
      }
    }
  }

  /** Calling `ext4_dir_next` from a position until it fails. */
  function Iterate(dir: seq<Block>, bs: nat, limit: nat, pos: nat): seq<Entry>
    requires DirOk(dir, bs, limit)
    decreases Span(bs, |dir|) - pos
  {
    NextMoves(dir, bs, limit, pos);
    var r := Next(dir, bs, limit, pos);
    if r == None then [] else [r.value.0] + Iterate(dir, bs, limit, r.value.1)
  }

  lemma IterateIs(dir: seq<Block>, bs: nat, limit: nat, pos: nat)
    requires DirOk(dir, bs, limit)
    ensures var r := Next(dir, bs, limit, pos);
            Iterate(dir, bs, limit, pos) == if r == None then [] else [r.value.0] + Iterate(dir, bs, limit, r.value.1)
  {
  }

  /** The entries not yet seen at offset w of block k. */
  function Rest(dir: seq<Block>, bs: nat, limit: nat, k: nat, w: nat): seq<Entry>
    requires DirOk(dir, bs, limit) && k < |dir| && Fits(dir[k], limit, w)
  {
    Entries(dir[k], limit, w) + All(dir[k + 1..], bs, limit)
  }

  /** One call from offset w of block k. */
  lemma NextAt(dir: seq<Block>, bs: nat, limit: nat, k: nat, w: nat)
    requires DirOk(dir, bs, limit) && k < |dir| && w < bs && Reaches(dir[k], limit, 0, w) && w <= limit
    ensures Next(dir, bs, limit, Span(bs, k) + w) ==
              match FirstListed(dir[k], limit, w)
              case None => Next(dir, bs, limit, Span(bs, k + 1))
              case Some(t) =>
                (ReachesFits(dir[k], limit, 0, w);
                 FirstIs(dir[k], limit, w);
                 Some((EntryAt(dir[k], t), Span(bs, k) + t + RecLen(dir[k], t))))
  {
    hide BlockOf, Within, Span, Fits, ScanFrom, FirstListed, RecLen, Listed, EntryAt, Reaches, Good, NameLen;
    At(bs, |dir|, k, w);
    ScanSkips(dir[k], limit, w, 0);
  }

  lemma At(bs: nat, n: nat, k: nat, w: nat)
    requires k < n && w < bs
    ensures BlockOf(bs, Span(bs, k) + w) == k && Within(bs, Span(bs, k) + w) == w
    ensures Span(bs, k) + w < Span(bs, k + 1) == Span(bs, k) + bs <= Span(bs, n)
  {
    DivModIs(k, bs, w);
    SpanAdd(bs, k, 1, n);
    SpanOne(bs);
  }

  lemma RestStep(dir: seq<Block>, bs: nat, limit: nat, k: nat, w: nat, next: nat, e: Entry)
    requires DirOk(dir, bs, limit) && k < |dir| && Fits(dir[k], limit, w) && Fits(dir[k], limit, next)
    requires Entries(dir[k], limit, w) == [e] + Entries(dir[k], limit, next)
    ensures Rest(dir, bs, limit, k, w) == [e] + Rest(dir, bs, limit, k, next)
  {
    hide Entries, Fits, All;
  }

  lemma RestEnd(dir: seq<Block>, bs: nat, limit: nat, k: nat, w: nat)
    requires DirOk(dir, bs, limit) && k < |dir| && Fits(dir[k], limit, w) && Entries(dir[k], limit, w) == []
    ensures Rest(dir, bs, limit, k, w) == All(dir[k + 1..], bs, limit)
  {
    hide Entries, Fits, All;
  }

  /** A full iteration yields exactly the entries not yet seen, in order. */
  lemma {:induction false} IterateRest(dir: seq<Block>, bs: nat, limit: nat, k: nat, w: nat)
    requires DirOk(dir, bs, limit) && k < |dir| && w <= limit && Reaches(dir[k], limit, 0, w)
    ensures Fits(dir[k], limit, w) && Iterate(dir, bs, limit, Span(bs, k) + w) == Rest(dir, bs, limit, k, w)
    decreases |dir| - k, limit - w
  {
    hide BlockOf, Within, Span, Fits, Fit, Ino, NameLen, FirstListed, RecLen, Listed, EntryAt, Reaches, Next, All,
         Entries, Iterate, Good, Rest;
    ReachesFits(dir[k], limit, 0, w);
    FirstIs(dir[k], limit, w);
    At(bs, |dir|, k, 0);
    IterateIs(dir, bs, limit, Span(bs, k) + w);
    IterateIs(dir, bs, limit, Span(bs, k + 1));
    if w == bs {
      End(dir[k], limit);
      IterateBlocks(dir, bs, limit, k);
      RestEnd(dir, bs, limit, k, w);
    } else {
      NextAt(dir, bs, limit, k, w);
      var r := FirstListed(dir[k], limit, w);
      if r == None {
        IterateBlocks(dir, bs, limit, k);
        RestEnd(dir, bs, limit, k, w);
      } else {
        var next := r.value + RecLen(dir[k], r.value);
        ReachesOn(dir[k], limit, 0, w, next);
        IterateRest(dir, bs, limit, k, next);
        RestStep(dir, bs, limit, k, w, next, EntryAt(dir[k], r.value));
      }
    }
  }

  /** From the end of block k on. */
  lemma {:induction false} IterateBlocks(dir: seq<Block>, bs: nat, limit: nat, k: nat)
    requires DirOk(dir, bs, limit) && k < |dir|
    ensures Iterate(dir, bs, limit, Span(bs, k + 1)) == All(dir[k + 1..], bs, limit)
    decreases |dir| - k - 1, limit + 1
  {
    if k + 1 < |dir| {
      IterateRest(dir, bs, limit, k + 1, 0);
      hide BlockOf, Within, Span, Fits, Entries;
      var rest := dir[k + 1..];
      assert rest == [dir[k + 1]] + dir[k + 2..];
      AllOne(dir[k + 1], bs, limit);
      AllConcat([dir[k + 1]], dir[k + 2..], bs, limit);
    } else {
      assert dir[k + 1..] == [];
    }
  }

  /** Iterating a directory from the start yields all its entries, in order. */
  lemma IterateAll(dir: seq<Block>, bs: nat, limit: nat)
    requires DirOk(dir, bs, limit)
    ensures Iterate(dir, bs, limit, 0) == All(dir, bs, limit)
  {
    hide Fits, Entries, Next, EntryAt;
    if dir != [] {
      IterateRest(dir, bs, limit, 0, 0);
      assert dir == [dir[0]] + dir[1..];
      AllOne(dir[0], bs, limit);
      AllConcat([dir[0]], dir[1..], bs, limit);
    } else {
      IterateEmpty(bs, limit);
    }
  }

  lemma IterateEmpty(bs: nat, limit: nat)
    requires Sizes(bs, limit)
    ensures Iterate([], bs, limit, 0) == []
  {
  }
}

/** Which records of a directory are shown, and which one a call of the iterator gives, in terms of the
    records that a walk over each block gets to (kernel/fs/ext4.c:2043-2090). */
module DirectoryLaws {
  import opened Words
  import opened Bytes
  import opened Division
  import opened DirBlock
  import opened Directory

  /** A walk from off gets to a record at t that is in use and has a name. */
  predicate Shows(blk: Block, limit: nat, off: nat, t: nat)
    requires limit <= |blk|
  {
    t < limit && Reaches(blk, limit, off, t) && Good(blk, limit, t) && Ino(blk, t) != 0 && NameLen(blk, t) > 0
  }

  lemma ShowsStep(blk: Block, limit: nat, off: nat, t: nat)
    requires off < limit <= |blk| && Good(blk, limit, off)
    ensures Shows(blk, limit, off, t) <==>
            (t == off && Ino(blk, t) != 0 && NameLen(blk, t) > 0) || Shows(blk, limit, off + RecLen(blk, off), t)
  {
    hide RecLen, Ino, NameLen;
    var next := off + RecLen(blk, off);
    if Reaches(blk, limit, next, t) {
      ReachesUp(blk, limit, next, t);
    }
  }

  lemma ShowsNone(blk: Block, limit: nat, off: nat, t: nat)
    requires limit <= |blk| && (off >= limit || !Good(blk, limit, off))
    ensures !Shows(blk, limit, off, t)
  {
    hide RecLen, Ino, NameLen;
    if Reaches(blk, limit, off, t) {
      ReachesUp(blk, limit, off, t);
    }
  }

  lemma ShownFits(blk: Block, limit: nat, off: nat, t: nat)
    requires limit <= |blk| && Fits(blk, limit, off) && Shows(blk, limit, off, t)
    ensures t + HEADER + NameLen(blk, t) <= |blk|
  {
    hide RecLen, Ino, NameLen;
    ReachesFits(blk, limit, off, t);
  }

  /** An entry is listed if and only if some record that is in use and has a name reads as it. */
  lemma {:induction false} EntriesIff(blk: Block, limit: nat, off: nat, e: Entry)
    requires limit <= |blk| && Fits(blk, limit, off)
    ensures e in Entries(blk, limit, off) <==>
            exists t: nat :: Shows(blk, limit, off, t) && (ShownFits(blk, limit, off, t); EntryAt(blk, t) == e)
    decreases limit - off
  {
    hide RecLen, Ino, NameLen, EntryAt, Reaches;
    if off < limit && Good(blk, limit, off) {
      var next := off + RecLen(blk, off);
      EntriesIff(blk, limit, next, e);
      forall t: nat ensures Shows(blk, limit, off, t) <==>
                            (t == off && Ino(blk, t) != 0 && NameLen(blk, t) > 0) || Shows(blk, limit, next, t)
      {
        ShowsStep(blk, limit, off, t);
      }
      if e in Here(blk, limit, off) {
        assert Shows(blk, limit, off, off);
      }
      if e in Entries(blk, limit, next) {
        var t: nat :| Shows(blk, limit, next, t) && (ShownFits(blk, limit, next, t); EntryAt(blk, t) == e);
        assert Shows(blk, limit, off, t);
      }
    } else {
      forall t: nat ensures !Shows(blk, limit, off, t) {
        ShowsNone(blk, limit, off, t);
      }
    }
  }

  /** The scan of one block gives the first shown record from min on. */
  lemma {:induction false} ScanIs(blk: Block, limit: nat, min: nat, off: nat, u: nat)
    requires limit <= |blk| && Fits(blk, limit, off)
    ensures match ScanFrom(blk, limit, min, off)
            case None => Shows(blk, limit, off, u) ==> u < min
            case Some(t) => Shows(blk, limit, off, t) && t >= min && (Shows(blk, limit, off, u) && u >= min ==> t <= u)
    decreases limit - off
  {
    hide RecLen, Ino, NameLen, Reaches;
    if off < limit && Good(blk, limit, off) {
      var next := off + RecLen(blk, off);
      ScanIs(blk, limit, min, next, u);
      ShowsStep(blk, limit, off, u);
      ShowsStep(blk, limit, off, off);
      if ScanFrom(blk, limit, min, next).Some? {
        ShowsStep(blk, limit, off, ScanFrom(blk, limit, min, next).value);
      }
      if Shows(blk, limit, next, u) {
        ShownAfter(blk, limit, next, u);
      }
    } else {
      ShowsNone(blk, limit, off, u);
    }
  }

  lemma ShownAfter(blk: Block, limit: nat, off: nat, t: nat)
    requires limit <= |blk| && Shows(blk, limit, off, t)
    ensures off <= t
  {
    ReachesUp(blk, limit, off, t);
  }

  /** Record t of block k is at or behind position pos. */
  predicate Behind(bs: nat, pos: nat, k: nat, t: nat)
    requires bs > 0
  {
    BlockOf(bs, pos) < k || (BlockOf(bs, pos) == k && Within(bs, pos) <= t)
  }

  /** Record t of block k is the first shown one at or behind position pos. */
  ghost predicate FirstShown(dir: seq<Block>, bs: nat, limit: nat, pos: nat, k: nat, t: nat)
    requires DirOk(dir, bs, limit) && bs > 0
  {
    && k < |dir| && Shows(dir[k], limit, 0, t) && Behind(bs, pos, k, t)
    && forall j: nat, u: nat | j < |dir| && Shows(dir[j], limit, 0, u) && Behind(bs, pos, j, u) ::
         k < j || (k == j && t <= u)
  }

  ghost predicate NoneShown(dir: seq<Block>, bs: nat, limit: nat, pos: nat)
    requires DirOk(dir, bs, limit) && bs > 0
  {
    forall j: nat, u: nat | j < |dir| && Shows(dir[j], limit, 0, u) :: !Behind(bs, pos, j, u)
  }

  /** A call of the iterator gives the first shown record at or behind the position, and the position behind
      that record; it fails if and only if there is none. */
  lemma {:induction false} NextIs(dir: seq<Block>, bs: nat, limit: nat, pos: nat) returns (k: nat, t: nat)
    requires DirOk(dir, bs, limit) && bs > 0
    ensures match Next(dir, bs, limit, pos)
            case None => NoneShown(dir, bs, limit, pos)
            case Some((e, q)) =>
              && FirstShown(dir, bs, limit, pos, k, t)
              && (ShownFits(dir[k], limit, 0, t); e == EntryAt(dir[k], t)) && q == Span(bs, k) + t + RecLen(dir[k], t)
    decreases Span(bs, |dir|) - pos
  {
    hide Span, BlockOf, Within, Fits, ScanFrom, RecLen, EntryAt, Shows;
    k, t := 0, 0;
    if pos < Span(bs, |dir|) {
      Spot(bs, |dir|, pos);
      var m, w := BlockOf(bs, pos), Within(bs, pos);
      ScanGood(dir[m], limit, w, 0);
      ScanIs(dir[m], limit, w, 0, 0);
      var r := ScanFrom(dir[m], limit, w, 0);
      forall u: nat | Shows(dir[m], limit, 0, u) && u >= w ensures r.Some? && r.value <= u {
        ScanIs(dir[m], limit, w, 0, u);
      }
      if r == None {
        BlockStart(bs, m + 1);
        k, t := NextIs(dir, bs, limit, Span(bs, m + 1));
        NextBlock(dir, bs, limit, pos, k, t);
      } else {
        k, t := m, r.value;
      }
    } else {
      PastEnd(bs, |dir|, pos);
    }
  }

  /** When the block of pos shows nothing from there on, the next block is where to look. */
  lemma NextBlock(dir: seq<Block>, bs: nat, limit: nat, pos: nat, k: nat, t: nat)
    requires DirOk(dir, bs, limit) && bs > 0 && BlockOf(bs, pos) < |dir|
    requires forall u: nat | Shows(dir[BlockOf(bs, pos)], limit, 0, u) :: u < Within(bs, pos)
    ensures var next := Span(bs, BlockOf(bs, pos) + 1);
            && (NoneShown(dir, bs, limit, next) ==> NoneShown(dir, bs, limit, pos))
            && (FirstShown(dir, bs, limit, next, k, t) ==> FirstShown(dir, bs, limit, pos, k, t))
  {
    hide Span, BlockOf, Within, Shows, Fits;
    BlockStart(bs, BlockOf(bs, pos) + 1);
  }

  lemma BlockStart(bs: nat, k: nat)
    requires bs > 0
    ensures BlockOf(bs, Span(bs, k)) == k && Within(bs, Span(bs, k)) == 0
  {
    DivModIs(k, bs, 0);
  }

  lemma PastEnd(bs: nat, n: nat, pos: nat)
    requires bs > 0 && pos >= Span(bs, n)
    ensures BlockOf(bs, pos) >= n
  {
    if n > 0 {
      DivBelow(pos, bs, n - 1);
    }
  }
}

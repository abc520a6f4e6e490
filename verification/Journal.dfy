/** The write-ahead journal: the device writes of `txn_commit` and `ext4_journal_replay`,
    byte for byte (kernel/fs/ext4.c:189-335, 2341-2453).

    One transaction is written to the start of the journal as a descriptor block, its data
    blocks and a commit block; then the journal superblock points at it; then the home blocks
    are written; then the superblock is cleared. */
module Journal {
  import opened Words
  import opened Bytes

  const MAGIC := 0xC03B3998
  const DESCRIPTOR := 1
  const COMMIT := 2
  const ESCAPE := 1
  const SAME_UUID := 2
  const LAST_TAG := 8
  const TXN_MAX := 8

  /** A block write, or a write of the start and sequence fields of the journal superblock. */
  datatype Write = Blk(b: nat, v: Block) | Sb(start: nat, seq_: nat)

  datatype Device = Device(blocks: map<nat, Block>, start: nat, seq_: nat)

  function Put(d: Device, w: Write): Device {
    match w
    case Blk(b, v) => d.(blocks := d.blocks[b := v])
    case Sb(start, s) => d.(start := start, seq_ := s)
  }

  function PutAll(d: Device, ws: seq<Write>): Device
    decreases ws
  {
    if ws == [] then d else PutAll(Put(d, ws[0]), ws[1..])
  }

  /** Block size, first log block, log length, and the journal file's extents as pairs of
      first file block and first disk block. */
  datatype Geometry = Geometry(bs: nat, first: nat, maxlen: nat, maps: seq<(nat, nat)>)

  /** `jrnl_phys`. */
  function Phys(g: Geometry, j: nat): nat {
    PhysIn(g.maps, j)
  }

  function PhysIn(maps: seq<(nat, nat)>, j: nat): nat {
    if maps == [] then 0
    else if maps[0].0 <= j < maps[0].0 + 4096 then maps[0].1 + (j - maps[0].0)
    else PhysIn(maps[1..], j)
  }

  /** The log has room for one full transaction in the journal file's first extent. */
  predicate GeometryOk(g: Geometry) {
    && g.bs >= 1024
    && g.maps != [] && g.maps[0].0 == 0 && g.maps[0].1 > 0
    && 1 <= g.first && g.first + TXN_MAX + 2 <= g.maxlen && g.first + TXN_MAX + 2 <= 4096
  }

  lemma PhysFirst(g: Geometry, j: nat)
    requires GeometryOk(g) && j < 4096
    ensures Phys(g, j) == g.maps[0].1 + j
  {
  }

  /** A block of the log; a part of the log that no extent maps has none. */
  ghost predicate InJournal(g: Geometry, b: nat) {
    b != 0 && exists j: nat :: j < g.maxlen && Phys(g, j) == b
  }

  // ----- what a transaction writes

  type Op = seq<(nat, Block)>

  function Flags(op: Op, i: nat): nat
    requires i < |op|
  {
    SAME_UUID + (if i + 1 == |op| then LAST_TAG else 0) + (if Escaped(op[i].1) then ESCAPE else 0)
  }

  /** The escape test reads the first word little-endian. */
  predicate Escaped(v: Block) {
    |v| >= 4 && Le32(v, 0) == MAGIC
  }

  /** The copy of a block in the journal. */
  function Stored(v: Block): (s: Block)
    ensures |s| == |v|
  {
    if Escaped(v) then [0, 0, 0, 0] + v[4..] else v
  }

  /** What replay writes home for a copy: the restored word is written big-endian. */
  function Restored(s: Block, escaped: bool): Block {
    if escaped && |s| >= 4 then PutBe32(MAGIC) + s[4..] else s
  }

  /** A block survives the journal unchanged exactly when it does not start with the magic
      number in little-endian order. */
  lemma EscapeRoundTrip(v: Block)
    ensures Restored(Stored(v), Escaped(v)) == v <==> !Escaped(v)
  {
    if Escaped(v) {
      var r := Restored(Stored(v), true);
      assert r[0] == PutBe32(MAGIC)[0] && PutBe32(MAGIC)[0] == 0xC0;
      assert Le32(v, 0) == Word(v[3], v[2], v[1], v[0]);
      assert v[0] == 0x98;
    }
  }

  /** The copy in the journal never starts with the magic number in that order, and differs from the block
      in its first word at most. */
  lemma CopyIs(v: Block)
    ensures !Escaped(Stored(v)) && (|v| >= 4 ==> Stored(v)[4..] == v[4..])
    ensures if Escaped(v) then Stored(v)[..4] == [0, 0, 0, 0] else Stored(v) == v
  {
    if Escaped(v) {
      assert Stored(v)[4..] == v[4..] && Stored(v)[..4] == [0, 0, 0, 0];
      assert Le32(Stored(v), 0) == 0;
    }
  }

  function Tag(b: nat, fl: nat): (t: Block)
    requires b < U32 && fl < 256
    ensures |t| == 8
  {
    PutBe32(b) + [0, 0, 0, fl]
  }

  function Tags(op: Op, i: nat): (t: Block)
    requires i <= |op| && forall k | 0 <= k < |op| :: op[k].0 < U32
    ensures |t| == 8 * (|op| - i)
    decreases |op| - i
  {
    if i == |op| then [] else Tag(op[i].0, Flags(op, i)) + Tags(op, i + 1)
  }

  function Header(kind: nat, s: nat): (h: Block)
    requires kind < U32 && s < U32
    ensures |h| == 12
  {
    PutBe32(MAGIC) + PutBe32(kind) + PutBe32(s)
  }

  predicate OpShape(g: Geometry, op: Op) {
    1 <= |op| <= TXN_MAX && forall k | 0 <= k < |op| :: op[k].0 < U32 && |op[k].1| == g.bs
  }

  function Descriptor(g: Geometry, op: Op, s: nat): (d: Block)
    requires GeometryOk(g) && OpShape(g, op) && s < U32
    ensures |d| == g.bs
  {
    Header(DESCRIPTOR, s) + Tags(op, 0) + Zeros(g.bs - 12 - 8 * |op|)
  }

  function CommitBlock(g: Geometry, s: nat): (c: Block)
    requires GeometryOk(g) && s < U32
    ensures |c| == g.bs
  {
    Header(COMMIT, s) + Zeros(g.bs - 12)
  }

  /** Log block i of a transaction: descriptor, data blocks, commit block. */
  function LogBlock(g: Geometry, op: Op, s: nat, i: nat): (v: Block)
    requires GeometryOk(g) && OpShape(g, op) && s < U32 && i <= |op| + 1
    ensures |v| == g.bs
  {
    if i == 0 then Descriptor(g, op, s)
    else if i <= |op| then Stored(op[i - 1].1)
    else CommitBlock(g, s)
  }

  function HomeWrites(op: Op): (ws: seq<Write>)
    ensures |ws| == |op|
  {
    seq(|op|, i requires 0 <= i < |op| => Blk(op[i].0, op[i].1))
  }

  function LogWrites(g: Geometry, op: Op, s: nat): (ws: seq<Write>)
    requires GeometryOk(g) && OpShape(g, op) && s < U32
    ensures |ws| == |op| + 2
  {
    seq(|op| + 2, i requires 0 <= i < |op| + 2 => Blk(Phys(g, g.first + i), LogBlock(g, op, s, i)))
  }

  /** The device writes of `txn_commit`, in order. */
  function CommitWrites(g: Geometry, op: Op, s: nat): seq<Write>
    requires GeometryOk(g) && OpShape(g, op) && s < U32
  {
    LogWrites(g, op, s) + [Sb(g.first, s)] + HomeWrites(op) + [Sb(0, Add32(s, 1))]
  }

  // ----- what replay writes

  function Read(d: Device, b: nat, bs: nat): Block {
    if b in d.blocks then d.blocks[b] else Zeros(bs)
  }

  predicate IsHeader(v: Block, kind: nat, s: nat) {
    |v| >= 12 && Be32(v, 0) == MAGIC && Be32(v, 4) == kind && Be32(v, 8) == s
  }

  /** A tag as replay reads it: flag 1 escaped, 2 same UUID, 4 deleted, 8 last tag. */
  datatype TagView = TagView(target: nat, escaped: bool, sameUuid: bool, deleted: bool, last: bool)

  function ReadTag(jb: Block, off: nat): TagView
    requires off + 8 <= |jb|
  {
    var fl := Be16(jb, off + 6);
    TagView(Be32(jb, off), fl % 2 == 1, fl % 4 >= 2, fl % 8 >= 4, fl % 16 >= 8)
  }

  /** The tags of a descriptor from off: up to the last-tag flag or the end of the block. A tag
      without the same-UUID flag is followed by 16 bytes. */
  function TagList(jb: Block, off: nat): seq<TagView>
    decreases if off <= |jb| then |jb| - off else 0
  {
    if off + 8 > |jb| then []
    else
      var t := ReadTag(jb, off);
      if t.last then [t] else [t] + TagList(jb, if t.sameUuid then off + 8 else off + 24)
  }

  /** What a tag makes replay write: nothing for a deleted block, else the restored copy. */
  function TagWrite(g: Geometry, d: Device, t: TagView, dp: nat): seq<Write> {
    if t.deleted then [] else [Blk(t.target, Restored(Read(d, dp, g.bs), t.escaped))]
  }

  /** The tag loop: the home writes for tags, whose copies start at log block log + 1 + n. */
  function Scan(g: Geometry, d: Device, tags: seq<TagView>, n: nat, log: nat): (r: (seq<Write>, nat))
    decreases tags
  {
    if tags == [] || Phys(g, log + 1 + n) == 0 then ([], n)
    else
      var w := TagWrite(g, d, tags[0], Phys(g, log + 1 + n));
      var r := Scan(g, PutAll(d, w), tags[1..], n + 1, log);
      (w + r.0, r.1)
  }

  /** The transaction loop from log block log, expecting sequence number s. */
  function ReplayFrom(g: Geometry, d: Device, log: nat, s: nat): (r: (seq<Write>, nat))
    decreases if log <= g.maxlen then g.maxlen - log else 0
  {
    var pb := Phys(g, log);
    if log >= g.maxlen || pb == 0 || pb !in d.blocks then ([], s)
    else
      var jb := d.blocks[pb];
      if |jb| != g.bs || !IsHeader(jb, DESCRIPTOR, s) then ([], s)
      else
        var (ws, n) := Scan(g, d, TagList(jb, 12), 0, log);
        var log', d' := log + 1 + n, PutAll(d, ws);
        var cb := Phys(g, log');
        if log' >= g.maxlen || cb == 0 || cb !in d'.blocks || !IsHeader(d'.blocks[cb], COMMIT, s) then (ws, s)
        else
          var r := ReplayFrom(g, d', log' + 1, Add32(s, 1));
          (ws + r.0, r.1)
  }

  /** The device writes of a mount, and the sequence number it continues with. */
  function MountWrites(g: Geometry, d: Device): (seq<Write>, nat) {
    if d.start == 0 then ([], d.seq_)
    else
      var (ws, s) := ReplayFrom(g, d, d.start, d.seq_);
      (ws + [Sb(0, s)], s)
  }

  // ----- the descriptor read back

  lemma {:induction false} TagsAt(op: Op, i: nat, k: nat)
    requires i <= k < |op| && forall j | 0 <= j < |op| :: op[j].0 < U32
    ensures Tags(op, i)[8 * (k - i)..8 * (k - i) + 8] == Tag(op[k].0, Flags(op, k))
    decreases k - i
  {
    if i < k {
      TagsAt(op, i + 1, k);
      var t, rest := Tags(op, i), Tags(op, i + 1);
      assert t == Tag(op[i].0, Flags(op, i)) + rest;
      var o := 8 * (k - i - 1);
      assert t[8 + o..8 + o + 8] == rest[o..o + 8];
    }
  }

  /** The descriptor's tag k, as replay reads it. */
  lemma TagRead(g: Geometry, op: Op, s: nat, k: nat)
    requires GeometryOk(g) && OpShape(g, op) && s < U32 && k < |op|
    ensures var jb, off := Descriptor(g, op, s), 12 + 8 * k;
            && off + 8 <= g.bs
            && Be32(jb, off) == op[k].0
            && Be16(jb, off + 6) == Flags(op, k)
  {
    hide PutBe32, Be32, Le32, Escaped;
    var jb, off, t := Descriptor(g, op, s), 12 + 8 * k, Tag(op[k].0, Flags(op, k));
    TagsAt(op, 0, k);
    assert jb[off..off + 8] == Tags(op, 0)[8 * k..8 * k + 8] == t;
    assert jb[off..off + 4] == jb[off..off + 8][..4] == t[0..4];
    Be32Slice(jb, t, off, 0);
    assert t[..4] == PutBe32(op[k].0);
    Be32Slice(t, PutBe32(op[k].0), 0, 0);
    Be32RoundTrip(op[k].0);
    assert jb[off + 6] == t[6] && jb[off + 7] == t[7];
  }

  /** The tags of a descriptor, as replay reads them. */
  function View(op: Op, k: nat): TagView
    requires k < |op|
  {
    TagView(op[k].0, Escaped(op[k].1), true, false, k + 1 == |op|)
  }

  lemma ViewRead(g: Geometry, op: Op, s: nat, k: nat)
    requires GeometryOk(g) && OpShape(g, op) && s < U32 && k < |op|
    ensures 12 + 8 * k + 8 <= g.bs && ReadTag(Descriptor(g, op, s), 12 + 8 * k) == View(op, k)
  {
    TagRead(g, op, s, k);
    FlagBits(op, k);
    hide Be32, Be16, Descriptor, Flags, Escaped;
  }

  lemma FlagBits(op: Op, k: nat)
    requires k < |op|
    ensures var fl := Flags(op, k);
            (fl % 2 == 1 <==> Escaped(op[k].1)) && fl % 4 >= 2 && fl % 8 < 4 && (fl % 16 >= 8 <==> k + 1 == |op|)
  {
  }

  function Views(op: Op, k: nat): seq<TagView>
    requires k <= |op|
    decreases |op| - k
  {
    if k == |op| then [] else [View(op, k)] + Views(op, k + 1)
  }

  /** A tag that repeats the UUID is followed by the next one, unless it is the last. */
  lemma TagListIs(jb: Block, off: nat)
    requires off + 8 <= |jb| && (ReadTag(jb, off).last || ReadTag(jb, off).sameUuid)
    ensures TagList(jb, off) ==
            if ReadTag(jb, off).last then [ReadTag(jb, off)] else [ReadTag(jb, off)] + TagList(jb, off + 8)
  {
    hide ReadTag;
  }

  /** Parsing the descriptor of op gives back its tags. */
  lemma {:induction false} TagsRoundTrip(g: Geometry, op: Op, s: nat, k: nat)
    requires GeometryOk(g) && OpShape(g, op) && s < U32 && k < |op|
    ensures TagList(Descriptor(g, op, s), 12 + 8 * k) == Views(op, k)
    decreases |op| - k
  {
    hide ReadTag, Descriptor, Escaped, TagList, OpShape;
    ViewRead(g, op, s, k);
    TagListIs(Descriptor(g, op, s), 12 + 8 * k);
    if k + 1 < |op| {
      TagsRoundTrip(g, op, s, k + 1);
      assert 12 + 8 * k + 8 == 12 + 8 * (k + 1);
    } else {
      assert Views(op, k + 1) == [];
      assert [View(op, k)] + [] == [View(op, k)];
    }
  }

  lemma HeaderRead(kind: nat, s: nat, rest: Block)
    requires kind < U32 && s < U32
    ensures IsHeader(Header(kind, s) + rest, kind, s)
    ensures Be32(Header(kind, s) + rest, 4) == kind && Be32(Header(kind, s) + rest, 8) == s
  {
    hide PutBe32, Be32;
    var h := Header(kind, s) + rest;
    Be32At([], MAGIC, PutBe32(kind) + PutBe32(s) + rest);
    assert h == [] + PutBe32(MAGIC) + (PutBe32(kind) + PutBe32(s) + rest);
    Be32At(PutBe32(MAGIC), kind, PutBe32(s) + rest);
    assert h == PutBe32(MAGIC) + PutBe32(kind) + (PutBe32(s) + rest);
    Be32At(PutBe32(MAGIC) + PutBe32(kind), s, rest);
  }
}

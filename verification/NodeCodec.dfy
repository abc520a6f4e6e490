/** Extent nodes as bytes: the header, twelve-byte extents and twelve-byte index entries, with block
    addresses split into a 16-bit high and a low part (includes/kernel/fs/ext4.h:83-103,
    kernel/fs/ext4.c:817-874, 960-971, 1044-1061, 1109-1114). */
module NodeCodec {
  import opened Words
  import opened Bytes
  import opened Extents
  import opened ExtentDisk

  const MAGIC := 0xF30A
  const ENTRY := 12

  /** An entry whose fields fit their words; index entries carry no length. */
  predicate EntryOk(depth: nat, s: Slot) {
    s.key < U32 && s.addr < U32 && s.len < U16 && (depth > 0 ==> s.len == 0)
  }

  /** As `leaf_insert` stores an extent, and the insertion code an index entry. */
  function Encode(depth: nat, s: Slot): (b: Block)
    requires EntryOk(depth, s)
    ensures |b| == ENTRY
  {
    if depth == 0 then PutLe32(s.key) + PutLe16(s.len) + PutLe16(s.addr / U16) + PutLe32(s.addr % U16)
    else PutLe32(s.key) + PutLe32(s.addr) + PutLe16(0) + PutLe16(0)
  }

  /** As `ext_lookup` reads them: `lo | (hi << 16)`. */
  function Decode(depth: nat, b: Block, o: nat): Slot
    requires o + ENTRY <= |b|
  {
    if depth == 0 then Slot(Le32(b, o), Le16(b, o + 4), BitOr(Le32(b, o + 8), Le16(b, o + 6) * U16))
    else Slot(Le32(b, o), 0, BitOr(Le32(b, o + 4), Le16(b, o + 8) * U16))
  }

  lemma Le32At(a: Block, v: nat, c: Block)
    requires v < U32
    ensures Le32(a + PutLe32(v) + c, |a|) == v
  {
    Le32RoundTrip(v);
    hide PutLe32, Word;
    var b := a + PutLe32(v) + c;
    assert b[|a|] == PutLe32(v)[0] && b[|a| + 1] == PutLe32(v)[1] && b[|a| + 2] == PutLe32(v)[2]
           && b[|a| + 3] == PutLe32(v)[3];
  }

  lemma Le16At(a: Block, v: nat, c: Block)
    requires v < U16
    ensures Le16(a + PutLe16(v) + c, |a|) == v
  {
    Le16RoundTrip(v);
    hide PutLe16, Word;
    var b := a + PutLe16(v) + c;
    assert b[|a|] == PutLe16(v)[0] && b[|a| + 1] == PutLe16(v)[1];
  }

  /** Where the fields of an extent lie: first file block, length, high and low part of the disk block. */
  lemma ExtentFields(a: Block, s: Slot, c: Block)
    requires EntryOk(0, s)
    ensures var b, o := a + Encode(0, s) + c, |a|;
            && Le32(b, o) == s.key && Le16(b, o + 4) == s.len
            && Le16(b, o + 6) == s.addr / U16 && Le32(b, o + 8) == s.addr % U16
  {
    hide PutLe32, PutLe16, Le32, Le16;
    var k, l, h, w := PutLe32(s.key), PutLe16(s.len), PutLe16(s.addr / U16), PutLe32(s.addr % U16);
    var b := a + Encode(0, s) + c;
    assert b == a + k + (l + h + w + c);
    Le32At(a, s.key, l + h + w + c);
    assert b == (a + k) + l + (h + w + c);
    Le16At(a + k, s.len, h + w + c);
    assert b == (a + k + l) + h + (w + c);
    Le16At(a + k + l, s.addr / U16, w + c);
    assert b == (a + k + l + h) + w + c;
    Le32At(a + k + l + h, s.addr % U16, c);
  }

  /** And those of an index entry: first file block, low and high part of the node's block. */
  lemma IndexFields(a: Block, depth: nat, s: Slot, c: Block)
    requires EntryOk(depth, s) && depth > 0
    ensures var b, o := a + Encode(depth, s) + c, |a|;
            Le32(b, o) == s.key && Le32(b, o + 4) == s.addr && Le16(b, o + 8) == 0
  {
    hide PutLe32, PutLe16, Le32, Le16;
    var k, w, z := PutLe32(s.key), PutLe32(s.addr), PutLe16(0);
    var b := a + Encode(depth, s) + c;
    assert b == a + k + (w + z + z + c);
    Le32At(a, s.key, w + z + z + c);
    assert b == (a + k) + w + (z + z + c);
    Le32At(a + k, s.addr, z + z + c);
    assert b == (a + k + w) + z + (z + c);
    Le16At(a + k + w, 0, z + c);
  }

  /** An entry reads back as it was stored, whatever surrounds it. */
  lemma EntryReads(a: Block, depth: nat, s: Slot, c: Block)
    requires EntryOk(depth, s)
    ensures Decode(depth, a + Encode(depth, s) + c, |a|) == s
  {
    hide Encode, Le32, Le16, BitOr;
    if depth == 0 {
      ExtentFields(a, s, c);
      HalvesRejoin(s.addr);
    } else {
      IndexFields(a, depth, s, c);
      NoHigh(s.addr);
    }
  }

  lemma NoHigh(x: nat)
    ensures BitOr(x, 0 * U16) == x
  {
  }

  // ----- whole nodes

  predicate NodeOk(n: Node) {
    n.depth < U16 && |n.slots| < U16 && forall i | 0 <= i < |n.slots| :: EntryOk(n.depth, n.slots[i])
  }

  function EncodeSlots(depth: nat, slots: seq<Slot>): (b: Block)
    requires forall i | 0 <= i < |slots| :: EntryOk(depth, slots[i])
    ensures |b| == ENTRY * |slots|
  {
    if slots == [] then [] else EncodeSlots(depth, slots[..|slots| - 1]) + Encode(depth, slots[|slots| - 1])
  }

  function DecodeSlots(depth: nat, b: Block, n: nat): seq<Slot>
    requires ENTRY + ENTRY * n <= |b|
  {
    if n == 0 then [] else DecodeSlots(depth, b, n - 1) + [Decode(depth, b, ENTRY * n)]
  }

  function EncodeHeader(n: Node, max: nat, generation: nat): (b: Block)
    requires n.depth < U16 && |n.slots| < U16 && max < U16 && generation < U32
    ensures |b| == ENTRY
  {
    PutLe16(MAGIC) + PutLe16(|n.slots|) + PutLe16(max) + PutLe16(n.depth) + PutLe32(generation)
  }

  /** A node in a block, with anything behind its entries. */
  function EncodeNode(n: Node, max: nat, generation: nat, rest: Block): Block
    requires NodeOk(n) && max < U16 && generation < U32
  {
    EncodeHeader(n, max, generation) + EncodeSlots(n.depth, n.slots) + rest
  }

  /** What the code reads from a block: nothing without the magic number. */
  function DecodeNode(b: Block): Option<Node> {
    if |b| < ENTRY || Le16(b, 0) != MAGIC || ENTRY + ENTRY * Le16(b, 2) > |b| then None
    else Some(Node(Le16(b, 6), DecodeSlots(Le16(b, 6), b, Le16(b, 2))))
  }

  lemma HeaderReads(n: Node, max: nat, generation: nat, c: Block)
    requires n.depth < U16 && |n.slots| < U16 && max < U16 && generation < U32
    ensures var b := EncodeHeader(n, max, generation) + c;
            Le16(b, 0) == MAGIC && Le16(b, 2) == |n.slots| && Le16(b, 4) == max && Le16(b, 6) == n.depth
  {
    hide PutLe32, PutLe16, Le16;
    var m, e, x, d, g := PutLe16(MAGIC), PutLe16(|n.slots|), PutLe16(max), PutLe16(n.depth), PutLe32(generation);
    var b := EncodeHeader(n, max, generation) + c;
    assert b == [] + m + (e + x + d + g + c);
    Le16At([], MAGIC, e + x + d + g + c);
    assert b == m + e + (x + d + g + c);
    Le16At(m, |n.slots|, x + d + g + c);
    assert b == (m + e) + x + (d + g + c);
    Le16At(m + e, max, d + g + c);
    assert b == (m + e + x) + d + (g + c);
    Le16At(m + e + x, n.depth, g + c);
  }

  lemma {:induction false} SlotsRead(depth: nat, h: Block, slots: seq<Slot>, c: Block)
    requires |h| == ENTRY && forall i | 0 <= i < |slots| :: EntryOk(depth, slots[i])
    ensures DecodeSlots(depth, h + EncodeSlots(depth, slots) + c, |slots|) == slots
    decreases slots
  {
    hide Encode, Decode;
    if slots != [] {
      var k := |slots| - 1;
      var a, e := EncodeSlots(depth, slots[..k]), Encode(depth, slots[k]);
      assert h + EncodeSlots(depth, slots) + c == h + a + (e + c) == (h + a) + e + c;
      SlotsRead(depth, h, slots[..k], e + c);
      EntryReads(h + a, depth, slots[k], c);
    }
  }

  /** A node written to a block reads back as the same node: depth, number and contents of entries. */
  lemma NodeRoundTrip(n: Node, max: nat, generation: nat, rest: Block)
    requires NodeOk(n) && max < U16 && generation < U32
    ensures DecodeNode(EncodeNode(n, max, generation, rest)) == Some(n)
  {
    hide EncodeHeader, EncodeSlots, DecodeSlots, Le16;
    var h, e := EncodeHeader(n, max, generation), EncodeSlots(n.depth, n.slots);
    assert h + e + rest == h + (e + rest);
    HeaderReads(n, max, generation, e + rest);
    SlotsRead(n.depth, h, n.slots, rest);
  }

  // ----- the layout of a block

  /** Entry i of a node, as the ext4 structures lay it out: 12 bytes each behind a header of 12 bytes, an extent
      with its address in two parts, an index entry with the address of a node. */
  predicate EntryAt(b: Block, depth: nat, i: nat, s: Slot) {
    var o := 12 + 12 * i;
    && o + 12 <= |b| && Le32(b, o) == s.key
    && if depth == 0 then Le16(b, o + 4) == s.len && Le32(b, o + 8) + 65536 * Le16(b, o + 6) == s.addr
       else Le32(b, o + 4) + 65536 * Le16(b, o + 8) == s.addr
  }

  lemma EntryLies(a: Block, depth: nat, i: nat, s: Slot, c: Block)
    requires EntryOk(depth, s) && |a| == 12 + 12 * i
    ensures EntryAt(a + Encode(depth, s) + c, depth, i, s)
  {
    hide Encode, Le32, Le16;
    if depth == 0 {
      ExtentFields(a, s, c);
    } else {
      IndexFields(a, depth, s, c);
    }
  }

  lemma {:induction false} SlotsLie(depth: nat, h: Block, slots: seq<Slot>, c: Block, i: nat)
    requires |h| == ENTRY && i < |slots| && forall j | 0 <= j < |slots| :: EntryOk(depth, slots[j])
    ensures EntryAt(h + EncodeSlots(depth, slots) + c, depth, i, slots[i])
    decreases |slots|
  {
    hide Encode, EntryAt;
    var k := |slots| - 1;
    var a, e := EncodeSlots(depth, slots[..k]), Encode(depth, slots[k]);
    assert h + EncodeSlots(depth, slots) + c == h + a + (e + c) == (h + a) + e + c;
    if i < k {
      SlotsLie(depth, h, slots[..k], e + c, i);
    } else {
      EntryLies(h + a, depth, k, slots[k], c);
    }
  }

  /** A node written to a block lies there as the ext4 structures say: magic number, number of entries, depth,
      and every entry at its place. */
  lemma NodeLayout(n: Node, max: nat, generation: nat, rest: Block)
    requires NodeOk(n) && max < U16 && generation < U32
    ensures var b := EncodeNode(n, max, generation, rest);
            && Le16(b, 0) == 0xF30A && Le16(b, 2) == |n.slots| && Le16(b, 4) == max && Le16(b, 6) == n.depth
            && forall i | 0 <= i < |n.slots| :: EntryAt(b, n.depth, i, n.slots[i])
  {
    hide EncodeHeader, EncodeSlots, Le16, EntryAt;
    var h, e := EncodeHeader(n, max, generation), EncodeSlots(n.depth, n.slots);
    assert h + e + rest == h + (e + rest);
    HeaderReads(n, max, generation, e + rest);
    forall i | 0 <= i < |n.slots|
      ensures EntryAt(h + e + rest, n.depth, i, n.slots[i])
    {
      SlotsLie(n.depth, h, n.slots, rest, i);
    }
  }
}

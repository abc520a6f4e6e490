/** The lock-free table of file slots: eight words of 32 bits changed by compare-and-swap, and the
    fields of each slot, under every interleaving of any number of threads (kernel/fs/file.c:14-80). */
module FileSlots {
  import opened Words
  import opened Bits

  const WORDS := 8
  const SLOTS := 256
  const FULL := 0xFFFF_FFFF
  /** Fields written by `file_table_alloc_slot` and by `file_table_free_slot`. */
  const ALLOC_FIELDS := 8
  const FREE_FIELDS := 6
  /** Slots 0 to 2 are reserved by `file_table_init`. */
  const RESERVED := 3

  /** Where a thread is: outside, loading word k, about to swap word w from b, writing field f of a
      slot it has just got or is about to give up, loading the slot's word, about to swap it from b. */
  datatype Pc =
    | Outside
    | Loading(k: nat)
    | Swapping(w: nat, b: nat)
    | Filling(slot: nat, f: nat)
    | Clearing(slot: nat, f: nat)
    | Reloading(slot: nat)
    | Unsetting(slot: nat, b: nat)

  /** words: `file_slot_used`. owned: the slots each thread holds between calls. owner records who
      last set the bit of each slot that is not free. */
  datatype State = State(words: seq<nat>, pcs: seq<Pc>, owned: seq<set<nat>>, owner: map<nat, nat>)

  /** `__builtin_ctz(~b)`: the lowest clear bit. */
  function LowestClear(b: nat, i: nat): (r: nat)
    requires i <= 32 && (exists k | i <= k < 32 :: !Bit(b, k))
    ensures i <= r < 32 && !Bit(b, r) && forall k | i <= k < r :: Bit(b, k)
    decreases 32 - i
  {
    if !Bit(b, i) then i else LowestClear(b, i + 1)
  }

  lemma {:induction false} SomeClear(b: nat, n: nat)
    requires b < Pow2(n) - 1
    ensures exists k | 0 <= k < n :: !Bit(b, k)
  {
    if n > 0 {
      if b % 2 == 1 {
        SomeClear(b / 2, n - 1);
        var k :| 0 <= k < n - 1 && !Bit(b / 2, k);
        assert !Bit(b, k + 1);
      } else {
        assert !Bit(b, 0);
      }
    }
  }

  /** The bit a thread picks in a word that is not full. */
  function Pick(b: nat): (i: nat)
    requires b < FULL
    ensures i < 32 && !Bit(b, i) && forall k | 0 <= k < i :: Bit(b, k)
  {
    assert exists k | 0 <= k < 32 :: !Bit(b, k) by {
      Pow2Is32();
      SomeClear(b, 32);
    }
    LowestClear(b, 0)
  }

  lemma Pow2Is32()
    ensures Pow2(32) == U32
  {
    assert Pow2(8) == 256 by { assert Pow2(4) == 16 && Pow2(6) == 64; }
    assert Pow2(16) == U16 by { assert Pow2(10) == 1024 && Pow2(12) == 4096 && Pow2(14) == 16384; }
    assert Pow2(24) == 0x100_0000 by { assert Pow2(18) == 0x4_0000 && Pow2(20) == 0x10_0000 && Pow2(22) == 0x40_0000; }
    assert Pow2(26) == 0x400_0000 && Pow2(28) == 0x1000_0000 && Pow2(30) == 0x4000_0000;
  }

  predicate SlotBit(words: seq<nat>, s: nat)
    requires |words| == WORDS && s < SLOTS
  {
    Bit(words[s / 32], s % 32)
  }

  /** One step of thread t; which slot it frees, if it starts to free one, is its own choice. */
  function Step(st: State, t: nat, slot: nat): State
    requires Shape(st) && t < |st.pcs|
  {
    match st.pcs[t]
    case Outside =>
      if slot in st.owned[t] then st.(pcs := st.pcs[t := Clearing(slot, 0)],
                                      owned := st.owned[t := st.owned[t] - {slot}])
      else st.(pcs := st.pcs[t := Loading(0)])
    case Loading(k) =>
      if k >= WORDS then st.(pcs := st.pcs[t := Outside])
      else if st.words[k] != FULL then st.(pcs := st.pcs[t := Swapping(k, st.words[k])])
      else st.(pcs := st.pcs[t := Loading(k + 1)])
    case Swapping(w, b) =>
      if st.words[w] != b then st.(pcs := st.pcs[t := Loading(0)])
      else
        var s := w * 32 + Pick(b);
        st.(words := st.words[w := BitOr(b, Pow2(Pick(b)))], pcs := st.pcs[t := Filling(s, 0)],
            owner := st.owner[s := t])
    case Filling(s, f) =>
      if f < ALLOC_FIELDS then st.(pcs := st.pcs[t := Filling(s, f + 1)])
      else st.(pcs := st.pcs[t := Outside], owned := st.owned[t := st.owned[t] + {s}])
    case Clearing(s, f) =>
      st.(pcs := st.pcs[t := if f < FREE_FIELDS then Clearing(s, f + 1) else Reloading(s)])
    case Reloading(s) =>
      var b := st.words[s / 32];
      st.(pcs := st.pcs[t := if Bit(b, s % 32) then Unsetting(s, b) else Outside])
    case Unsetting(s, b) =>
      if st.words[s / 32] != b then st.(pcs := st.pcs[t := Reloading(s)])
      else st.(words := st.words[s / 32 := BitClear(b, Pow2(s % 32))], pcs := st.pcs[t := Outside],
               owner := st.owner - {s})
  }

  predicate PcOk(pc: Pc) {
    match pc
    case Outside => true
    case Loading(k) => k <= WORDS
    case Swapping(w, b) => w < WORDS && b < FULL
    case Filling(s, f) => s < SLOTS
    case Clearing(s, f) => s < SLOTS
    case Reloading(s) => s < SLOTS
    case Unsetting(s, b) => s < SLOTS && b <= FULL
  }

  predicate Shape(st: State) {
    && |st.words| == WORDS && |st.owned| == |st.pcs|
    && (forall w | 0 <= w < WORDS :: st.words[w] <= FULL)
    && (forall t | 0 <= t < |st.pcs| :: PcOk(st.pcs[t]))
  }

  // ----- the invariant

  /** The thread is working on slot s. */
  predicate AtSlot(pc: Pc, s: nat) {
    (pc.Filling? || pc.Clearing? || pc.Reloading? || pc.Unsetting?) && pc.slot == s
  }

  /** The thread holds slot s, between calls or during one. */
  predicate Has(st: State, t: nat, s: nat)
    requires |st.owned| == |st.pcs| && t < |st.pcs|
  {
    s in st.owned[t] || AtSlot(st.pcs[t], s)
  }

  /** A bit is set exactly while its slot is reserved or has an owner. */
  predicate BitsOk(words: seq<nat>, owner: map<nat, nat>)
    requires |words| == WORDS
  {
    forall s | 0 <= s < SLOTS :: SlotBit(words, s) <==> s < RESERVED || s in owner
  }

  ghost predicate OwnersOk(st: State)
    requires Shape(st)
  {
    && (forall s | s in st.owner :: RESERVED <= s < SLOTS && st.owner[s] < |st.pcs| && Has(st, st.owner[s], s))
    && (forall t, s: nat | 0 <= t < |st.pcs| && Has(st, t, s) :: s in st.owner && st.owner[s] == t)
    && (forall t, s: nat | 0 <= t < |st.pcs| && AtSlot(st.pcs[t], s) :: s !in st.owned[t])
  }

  ghost predicate Inv(st: State) {
    Shape(st) && BitsOk(st.words, st.owner) && OwnersOk(st)
  }

  lemma SlotPlace(w: nat, i: nat)
    requires w < WORDS && i < 32
    ensures (w * 32 + i) / 32 == w && (w * 32 + i) % 32 == i && w * 32 + i < SLOTS
  {
  }

  /** Setting one bit of one word marks that slot and no other. */
  lemma SetSlot(words: seq<nat>, w: nat, i: nat)
    requires |words| == WORDS && w < WORDS && i < 32 && words[w] <= FULL
    ensures BitOr(words[w], Pow2(i)) <= FULL
    ensures forall s | 0 <= s < SLOTS :: SlotBit(words[w := BitOr(words[w], Pow2(i))], s) <==>
            SlotBit(words, s) || s == w * 32 + i
  {
    assert BitOr(words[w], Pow2(i)) <= FULL by {
      Pow2Is32();
      MaskBelow(i, 32);
      OrBound(words[w], Pow2(i), 32);
    }
    hide Bit, BitOr, Pow2;
    var words' := words[w := BitOr(words[w], Pow2(i))];
    forall s | 0 <= s < SLOTS ensures SlotBit(words', s) <==> SlotBit(words, s) || s == w * 32 + i {
      OrBit(words[w], Pow2(i), s % 32);
      MaskBit(i, s % 32);
      SlotPlace(w, i);
    }
  }

  lemma {:induction false} MaskBelow(i: nat, n: nat)
    requires i < n
    ensures Pow2(i) < Pow2(n)
  {
    if i < n - 1 {
      MaskBelow(i, n - 1);
    }
  }

  /** Clearing one bit frees that slot and no other. */
  lemma ClearSlot(words: seq<nat>, s0: nat)
    requires |words| == WORDS && s0 < SLOTS
    ensures BitClear(words[s0 / 32], Pow2(s0 % 32)) <= words[s0 / 32]
    ensures forall s | 0 <= s < SLOTS ::
              SlotBit(words[s0 / 32 := BitClear(words[s0 / 32], Pow2(s0 % 32))], s) <==> SlotBit(words, s) && s != s0
  {
    hide Bit, BitClear, Pow2;
    var w, i := s0 / 32, s0 % 32;
    var words' := words[w := BitClear(words[w], Pow2(i))];
    forall s | 0 <= s < SLOTS ensures SlotBit(words', s) <==> SlotBit(words, s) && s != s0 {
      Bits.ClearBit(words[w], Pow2(i), s % 32);
      MaskBit(i, s % 32);
    }
  }

  /** Ownership after a slot nobody had was taken by thread t. */
  lemma TakeKeeps(st: State, t: nat, s: nat, st': State)
    requires Shape(st) && Shape(st') && OwnersOk(st) && t < |st.pcs| && RESERVED <= s < SLOTS
    requires forall u | 0 <= u < |st.pcs| :: !Has(st, u, s)
    requires st.pcs[t].Swapping? && st'.pcs == st.pcs[t := Filling(s, 0)] && st'.owned == st.owned
             && st'.owner == st.owner[s := t]
    ensures OwnersOk(st')
  {
    forall u, x: nat | 0 <= u < |st'.pcs| && Has(st', u, x)
      ensures x in st'.owner && st'.owner[x] == u
    {
      assert (u == t && x == s) || Has(st, u, x);
    }
    forall x | x in st'.owner ensures RESERVED <= x < SLOTS && st'.owner[x] < |st'.pcs| && Has(st', st'.owner[x], x) {
      if x != s {
        assert Has(st, st.owner[x], x);
      }
    }
    assert !Has(st, t, s);
  }

  /** Taking the picked slot of word w, as far as bits and owners go. */
  lemma TakeBits(words: seq<nat>, w: nat, owner: map<nat, nat>, t: nat)
    requires |words| == WORDS && w < WORDS && words[w] < FULL && BitsOk(words, owner)
    ensures var s := w * 32 + Pick(words[w]);
            var word := BitOr(words[w], Pow2(Pick(words[w])));
            && RESERVED <= s < SLOTS && s !in owner && word <= FULL && BitsOk(words[w := word], owner[s := t])
  {
    hide Bit, BitOr, Pow2, LowestClear;
    var i := Pick(words[w]);
    SlotPlace(w, i);
    SetSlot(words, w, i);
    assert !SlotBit(words, w * 32 + i);
    var words' := words[w := BitOr(words[w], Pow2(i))];
    forall x | 0 <= x < SLOTS ensures SlotBit(words', x) <==> x < RESERVED || x in owner[w * 32 + i := t] {
      assert SlotBit(words', x) <==> SlotBit(words, x) || x == w * 32 + i;
      assert SlotBit(words, x) <==> x < RESERVED || x in owner;
    }
  }

  /** Giving up slot s, as far as bits and owners go. */
  lemma GiveBits(words: seq<nat>, s: nat, owner: map<nat, nat>)
    requires |words| == WORDS && RESERVED <= s < SLOTS && BitsOk(words, owner)
    ensures BitsOk(words[s / 32 := BitClear(words[s / 32], Pow2(s % 32))], owner - {s})
    ensures BitClear(words[s / 32], Pow2(s % 32)) <= words[s / 32]
  {
    hide Bit, BitClear, Pow2;
    ClearSlot(words, s);
    var words' := words[s / 32 := BitClear(words[s / 32], Pow2(s % 32))];
    forall x | 0 <= x < SLOTS ensures SlotBit(words', x) <==> x < RESERVED || x in owner - {s} {
      assert SlotBit(words', x) <==> SlotBit(words, x) && x != s;
      assert SlotBit(words, x) <==> x < RESERVED || x in owner;
    }
  }

  /** Ownership after thread t gave up slot s. */
  lemma GiveKeeps(st: State, t: nat, s: nat, st': State)
    requires Shape(st) && Shape(st') && OwnersOk(st) && t < |st.pcs| && AtSlot(st.pcs[t], s)
    requires st'.pcs == st.pcs[t := Outside] && st'.owned == st.owned && st'.owner == st.owner - {s}
    ensures OwnersOk(st')
  {
    assert Has(st, t, s);
    forall u, x: nat | 0 <= u < |st'.pcs| && Has(st', u, x)
      ensures x in st'.owner && st'.owner[x] == u
    {
      assert Has(st, u, x);
    }
    forall x | x in st'.owner ensures RESERVED <= x < SLOTS && st'.owner[x] < |st'.pcs| && Has(st', st'.owner[x], x) {
      assert Has(st, st.owner[x], x);
    }
  }

  /** Steps that change neither words nor owners: what a thread has may move between its hands only. */
  lemma MoveKeeps(st: State, t: nat, st': State)
    requires Shape(st) && Shape(st') && OwnersOk(st) && t < |st.pcs|
    requires |st'.pcs| == |st.pcs| && st'.owner == st.owner
    requires forall u | 0 <= u < |st.pcs| && u != t :: st'.pcs[u] == st.pcs[u] && st'.owned[u] == st.owned[u]
    requires forall s: nat :: Has(st', t, s) <==> Has(st, t, s)
    requires forall s: nat | AtSlot(st'.pcs[t], s) :: s !in st'.owned[t]
    ensures OwnersOk(st')
  {
    forall u, x: nat | 0 <= u < |st'.pcs|
      ensures Has(st', u, x) <==> Has(st, u, x)
    {
    }
  }

  /** Every step of every thread keeps the invariant. */
  lemma StepKeepsInv(st: State, t: nat, slot: nat)
    requires Inv(st) && t < |st.pcs|
    ensures Inv(Step(st, t, slot))
  {
    hide SlotBit, BitOr, BitClear, Pow2, Pick, BitsOk;
    var pc, st' := st.pcs[t], Step(st, t, slot);
    if pc.Swapping? && st.words[pc.w] == pc.b {
      TakeBits(st.words, pc.w, st.owner, t);
      TakeKeeps(st, t, pc.w * 32 + Pick(pc.b), st');
    } else if pc.Unsetting? && st.words[pc.slot / 32] == pc.b {
      assert Has(st, t, pc.slot);
      GiveBits(st.words, pc.slot, st.owner);
      GiveKeeps(st, t, pc.slot, st');
    } else {
      if pc.Outside? && slot in st.owned[t] {
        assert Has(st, t, slot);
      } else if pc.Reloading? {
        assert Has(st, t, pc.slot);
        OwnedBit(st.words, st.owner, pc.slot);
      }
      MoveKeeps(st, t, st');
    }
  }

  lemma OwnedBit(words: seq<nat>, owner: map<nat, nat>, s: nat)
    requires |words| == WORDS && BitsOk(words, owner) && s in owner && s < SLOTS
    ensures Bit(words[s / 32], s % 32)
  {
    hide Bit;
    assert SlotBit(words, s);
  }

  /** The table after `file_table_init`, with any number of threads outside. */
  predicate Initial(st: State) {
    && |st.owned| == |st.pcs| && st.words == [7, 0, 0, 0, 0, 0, 0, 0] && st.owner == map[]
    && forall t | 0 <= t < |st.pcs| :: st.pcs[t] == Outside && st.owned[t] == {}
  }

  lemma InitialInv(st: State)
    requires Initial(st)
    ensures Inv(st)
  {
    forall s | 0 <= s < SLOTS ensures SlotBit(st.words, s) <==> s < RESERVED {
      if s < 32 {
        SevenBits(s);
      } else {
        ZeroBits(s % 32);
      }
    }
  }

  lemma SevenBits(k: nat)
    ensures Bit(7, k) <==> k < 3
  {
    if k >= 3 {
      ZeroBits(k - 3);
      assert Bit(7, k) == Bit(3, k - 1) == Bit(1, k - 2) == Bit(0, k - 3);
    }
  }

  /** A run: which thread moves, and which slot it would free. Every state of it satisfies the invariant. */
  ghost function Run(st: State, moves: seq<(nat, nat)>): (r: State)
    requires Inv(st) && forall k | 0 <= k < |moves| :: moves[k].0 < |st.pcs|
    ensures Inv(r) && |r.pcs| == |st.pcs|
    decreases |moves|
  {
    if moves == [] then st
    else
      var n := |moves| - 1;
      var before := Run(st, moves[..n]);
      StepKeepsInv(before, moves[n].0, moves[n].1);
      Step(before, moves[n].0, moves[n].1)
  }

  /** The thread is about to write a field of slot s. */
  predicate Writes(pc: Pc, s: nat) {
    (pc.Filling? && pc.f < ALLOC_FIELDS && pc.slot == s) || (pc.Clearing? && pc.f < FREE_FIELDS && pc.slot == s)
  }

  /** In every state of every interleaving: a slot has at most one owner, no two threads write its
      fields at the same time, and its bit is set exactly while it is reserved or owned. */
  lemma SlotsExclusive(st: State, moves: seq<(nat, nat)>, s: nat, t: nat, u: nat)
    requires Initial(st) && (forall k | 0 <= k < |moves| :: moves[k].0 < |st.pcs|)
    requires s < SLOTS && t < |st.pcs| && u < |st.pcs|
    ensures Inv(st)
    ensures var r := Run(st, moves);
            && (Has(r, t, s) && Has(r, u, s) ==> t == u)
            && (Writes(r.pcs[t], s) && Writes(r.pcs[u], s) ==> t == u)
            && (SlotBit(r.words, s) <==> s < RESERVED || exists x | 0 <= x < |r.pcs| :: Has(r, x, s))
  {
    hide Run, SlotBit;
    InitialInv(st);
    var r := Run(st, moves);
    assert SlotBit(r.words, s) <==> s < RESERVED || s in r.owner;
    if s in r.owner {
      assert Has(r, r.owner[s], s);
    }
    assert Writes(r.pcs[t], s) ==> Has(r, t, s);
    assert Writes(r.pcs[u], s) ==> Has(r, u, s);
  }
}

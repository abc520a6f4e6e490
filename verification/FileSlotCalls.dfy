/** What the two calls on the table of file slots do when no other thread moves meanwhile: the smallest free
    slot is given out, none exactly when all are taken, and a slot given back is free
    (kernel/fs/file.c:26-80). */
module FileSlotCalls {
  import opened Words
  import opened Bits
  import opened FileSlots

  /** n steps of thread t; slot is what it frees, if it starts by freeing. */
  ghost function Alone(st: State, t: nat, slot: nat, n: nat): (r: State)
    requires Inv(st) && t < |st.pcs|
    ensures Inv(r) && |r.pcs| == |st.pcs|
    decreases n
  {
    if n == 0 then st
    else
      StepKeepsInv(st, t, slot);
      Alone(Step(st, t, slot), t, slot, n - 1)
  }

  function With(st: State, t: nat, pc: Pc): State
    requires t < |st.pcs|
  {
    st.(pcs := st.pcs[t := pc])
  }

  /** The state after thread t got slot s: its bit is set, and nothing else is changed for others. */
  ghost predicate Got(st: State, r: State, t: nat, s: nat)
    requires Inv(st) && Inv(r) && t < |st.pcs|
  {
    && s < SLOTS && !SlotBit(st.words, s)
    && (forall x | 0 <= x < SLOTS :: SlotBit(r.words, x) <==> SlotBit(st.words, x) || x == s)
    && r.pcs == st.pcs[t := Outside] && r.owned == st.owned[t := st.owned[t] + {s}]
  }

  lemma FullWord(words: seq<nat>, w: nat, x: nat)
    requires |words| == WORDS && w < WORDS && words[w] == FULL && x < SLOTS && x / 32 == w
    ensures SlotBit(words, x)
  {
    Pow2Is32();
    OnesBit(32, x % 32);
  }

  /** The fields of the slot are written one by one. */
  lemma {:induction false} FillOn(st: State, t: nat, slot: nat) returns (n: nat)
    requires Inv(st) && t < |st.pcs| && st.pcs[t].Filling? && st.pcs[t].f <= ALLOC_FIELDS
    ensures Alone(st, t, slot, n) == With(st, t, Outside).(owned := st.owned[t := st.owned[t] + {st.pcs[t].slot}])
    decreases ALLOC_FIELDS - st.pcs[t].f
  {
    hide Inv;
    StepKeepsInv(st, t, slot);
    assert Shape(st) by { ShapeOf(st); }
    var st' := Step(st, t, slot);
    if st.pcs[t].f < ALLOC_FIELDS {
      n := FillOn(st', t, slot);
      n := n + 1;
      assert st'.pcs[t := Outside] == st.pcs[t := Outside];
    } else {
      n := 1;
      assert Alone(st', t, slot, 0) == st';
    }
  }

  lemma ShapeOf(st: State)
    requires Inv(st)
    ensures Shape(st)
  {
  }

  /** The swap of a word that nobody changed since it was loaded, and what follows. */
  lemma SwapOn(st: State, t: nat, slot: nat) returns (n: nat)
    requires Inv(st) && t < |st.pcs| && st.pcs[t].Swapping? && st.words[st.pcs[t].w] == st.pcs[t].b < FULL
    ensures var w := st.pcs[t].w;
            var s := w * 32 + Pick(st.words[w]);
            Got(st, Alone(st, t, slot, n), t, s) && s / 32 == w && s % 32 == Pick(st.words[w])
  {
    ShapeOf(st);
    var w := st.pcs[t].w;
    var i := Pick(st.words[w]);
    SlotPlace(w, i);
    SetSlot(st.words, w, i);
    StepKeepsInv(st, t, slot);
    hide Inv, BitOr, Pick, Bit, Pow2;
    var st' := Step(st, t, slot);
    n := FillOn(st', t, slot);
    n := n + 1;
    assert st'.pcs[t := Outside] == st.pcs[t := Outside];
  }

  /** Words that are full are passed over. */
  lemma {:induction false} LoadOn(st: State, t: nat, slot: nat) returns (n: nat, s: nat)
    requires Inv(st) && t < |st.pcs| && st.pcs[t].Loading? && st.pcs[t].k <= WORDS
    requires forall w | 0 <= w < st.pcs[t].k :: st.words[w] == FULL
    ensures if s < SLOTS
            then Got(st, Alone(st, t, slot, n), t, s) && forall x | 0 <= x < s :: SlotBit(st.words, x)
            else
              Alone(st, t, slot, n) == With(st, t, Outside) && forall x | 0 <= x < SLOTS :: SlotBit(st.words, x)
    decreases WORDS - st.pcs[t].k
  {
    hide Inv, SlotBit, Pick;
    ShapeOf(st);
    StepKeepsInv(st, t, slot);
    var k, st' := st.pcs[t].k, Step(st, t, slot);
    forall x | 0 <= x < 32 * k ensures SlotBit(st.words, x) {
      FullWord(st.words, x / 32, x);
    }
    if k == WORDS {
      n, s := 1, SLOTS;
      assert Alone(st', t, slot, 0) == st';
    } else if st.words[k] == FULL {
      n, s := LoadOn(st', t, slot);
      n := n + 1;
      SameGot(st, st', t);
    } else {
      n := SwapOn(st', t, slot);
      n := n + 1;
      s := k * 32 + Pick(st.words[k]);
      SameGot(st, st', t);
      forall x | 0 <= x < s ensures SlotBit(st.words, x) {
        if x >= 32 * k {
          BelowPick(st.words, k, x);
        }
      }
    }
  }

  lemma BelowPick(words: seq<nat>, k: nat, x: nat)
    requires |words| == WORDS && k < WORDS && words[k] < FULL && k * 32 <= x < k * 32 + Pick(words[k])
    ensures SlotBit(words, x)
  {
    SlotPlace(k, x - k * 32);
  }

  /** A step that moves only the thread changes nothing about what it can get. */
  lemma SameGot(st: State, st': State, t: nat)
    requires Inv(st) && Inv(st') && t < |st.pcs| == |st'.pcs| && st' == With(st, t, st'.pcs[t])
    ensures With(st', t, Outside) == With(st, t, Outside)
    ensures forall r, s | Inv(r) && Got(st', r, t, s) :: Got(st, r, t, s)
  {
    assert st'.pcs[t := Outside] == st.pcs[t := Outside];
  }

  /** `file_table_alloc_slot` without interference: the smallest free slot, or none exactly when all are
      taken, and then nothing has changed. */
  lemma AllocAlone(st: State, t: nat) returns (n: nat, s: nat)
    requires Inv(st) && t < |st.pcs| && st.pcs[t] == Outside
    ensures if s < SLOTS
            then Got(st, Alone(st, t, SLOTS, n), t, s) && forall x | 0 <= x < s :: SlotBit(st.words, x)
            else Alone(st, t, SLOTS, n) == st && forall x | 0 <= x < SLOTS :: SlotBit(st.words, x)
  {
    ShapeOf(st);
    NotOwned(st, t);
    StepKeepsInv(st, t, SLOTS);
    hide Inv, SlotBit;
    var st' := Step(st, t, SLOTS);
    n, s := LoadOn(st', t, SLOTS);
    n := n + 1;
    SameGot(st, st', t);
    assert st.pcs[t := Outside] == st.pcs;
  }

  lemma NotOwned(st: State, t: nat)
    requires Inv(st) && t < |st.pcs|
    ensures SLOTS !in st.owned[t]
  {
    if SLOTS in st.owned[t] {
      assert Has(st, t, SLOTS);
    }
  }

  /** The fields of the slot are cleared one by one. */
  lemma {:induction false} ClearOn(st: State, t: nat, slot: nat) returns (n: nat)
    requires Inv(st) && t < |st.pcs| && st.pcs[t].Clearing? && st.pcs[t].f <= FREE_FIELDS
    ensures Alone(st, t, slot, n) == With(st, t, Reloading(st.pcs[t].slot))
    decreases FREE_FIELDS - st.pcs[t].f
  {
    hide Inv;
    ShapeOf(st);
    StepKeepsInv(st, t, slot);
    var st' := Step(st, t, slot);
    if st.pcs[t].f < FREE_FIELDS {
      n := ClearOn(st', t, slot);
      n := n + 1;
      assert st'.pcs[t := Reloading(st.pcs[t].slot)] == st.pcs[t := Reloading(st.pcs[t].slot)];
    } else {
      n := 1;
      assert Alone(st', t, slot, 0) == st';
    }
  }

  lemma {:induction false} AloneThen(st: State, t: nat, slot: nat, n: nat, m: nat)
    requires Inv(st) && t < |st.pcs|
    ensures Alone(st, t, slot, n + m) == Alone(Alone(st, t, slot, n), t, slot, m)
    decreases n
  {
    hide Inv;
    if n > 0 {
      ShapeOf(st);
      StepKeepsInv(st, t, slot);
      AloneThen(Step(st, t, slot), t, slot, n - 1, m);
    }
  }

  /** `file_table_free_slot` without interference: exactly that slot is free then. */
  lemma FreeAlone(st: State, t: nat, s: nat) returns (n: nat)
    requires Inv(st) && t < |st.pcs| && st.pcs[t] == Outside && s in st.owned[t]
    ensures var r := Alone(st, t, s, n);
            && s < SLOTS && (forall x | 0 <= x < SLOTS :: SlotBit(r.words, x) <==> SlotBit(st.words, x) && x != s)
            && r.pcs == st.pcs && r.owned == st.owned[t := st.owned[t] - {s}]
  {
    hide Inv, Step, SlotBit, Alone, Shape;
    ShapeOf(st);
    HeldSlot(st, t, s);
    StartsFreeing(st, t, s);
    AloneFirst(st, t, s, 0);
    var st1 := Step(st, t, s);
    n := ClearOn(st1, t, s);
    var st2 := Alone(st1, t, s, n);
    Unset(st2, t, s);
    AloneThen(st1, t, s, n, 2);
    AloneFirst(st, t, s, n + 2);
    n := n + 3;
    assert st2.pcs[t := Outside] == st.pcs;
  }

  lemma StartsFreeing(st: State, t: nat, s: nat)
    requires Inv(st) && t < |st.pcs| && st.pcs[t] == Outside && s in st.owned[t]
    ensures Step(st, t, s) == With(st, t, Clearing(s, 0)).(owned := st.owned[t := st.owned[t] - {s}])
  {
  }

  lemma AloneFirst(st: State, t: nat, slot: nat, n: nat)
    requires Inv(st) && t < |st.pcs|
    ensures Inv(Step(st, t, slot)) && |Step(st, t, slot).pcs| == |st.pcs|
    ensures Alone(st, t, slot, n + 1) == Alone(Step(st, t, slot), t, slot, n)
  {
    StepKeepsInv(st, t, slot);
    hide Inv;
    ShapeOf(st);
  }

  lemma HeldSlot(st: State, t: nat, s: nat)
    requires Inv(st) && t < |st.pcs| && s in st.owned[t]
    ensures s < SLOTS
  {
    assert Has(st, t, s);
  }

  /** The word is loaded, and swapped for one without the bit. */
  lemma Unset(st: State, t: nat, s: nat)
    requires Inv(st) && t < |st.pcs| && st.pcs[t] == Reloading(s) && s < SLOTS
    ensures var r := Alone(st, t, s, 2);
            && (forall x | 0 <= x < SLOTS :: SlotBit(r.words, x) <==> SlotBit(st.words, x) && x != s)
            && r.pcs == st.pcs[t := Outside] && r.owned == st.owned
  {
    ShapeOf(st);
    assert Has(st, t, s);
    OwnedBit(st.words, st.owner, s);
    StepKeepsInv(st, t, s);
    var st1 := Step(st, t, s);
    ShapeOf(st1);
    StepKeepsInv(st1, t, s);
    ClearSlot(st.words, s);
    hide Inv, SlotBit, BitClear, Bit, Pow2;
    var st2 := Step(st1, t, s);
    assert Alone(st2, t, s, 0) == st2 && Alone(st1, t, s, 1) == Alone(st2, t, s, 0);
    assert st1.pcs[t := Outside] == st.pcs[t := Outside];
  }
}

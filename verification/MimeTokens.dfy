/** The well-known field names: which of them own a presence bit and which own
    a slot accelerator, and how the accelerators are packed into machine words. */
module MimeTokens {

  /** What the store needs to know about the token table: `slotId(w)` is the
      accelerator of token `w` and `bit(w)` its presence bit, -1 for none. */
  datatype TokenTable = TokenTable(slotId: nat -> int, bit: nat -> int)
  {
    /** The presence mask of token `w`, as a set of bit positions. */
    function Mask(w: nat): (m: set<int>) {
      if bit(w) < 0 then {} else {bit(w)}
    }

    /** No two tokens share a presence bit or an accelerator, and a token that
        owns an accelerator also owns a presence bit. */
    ghost predicate Consistent() {
      && (forall w: nat :: -1 <= slotId(w) < 32)
      && (forall w: nat, v: nat :: slotId(w) == slotId(v) >= 0 ==> w == v)
      && (forall w: nat, v: nat :: bit(w) == bit(v) >= 0 ==> w == v)
      && (forall w: nat :: slotId(w) >= 0 ==> bit(w) >= 0)
    }
  }

  // ---------------------------------------------------------------- the table

  // The slot ids of the 72 field tokens, in table order.
  function FieldSlotId(w: nat): (id: int) {
    if w < 4 then w else if w < 5 then -1 else if w < 6 then w - 1 else if w < 8 then -1
    else if w < 9 then w - 3 else if w < 10 then -1 else if w < 13 then w - 4 else if w < 14 then -1
    else if w < 17 then w - 5 else if w < 20 then -1 else if w < 21 then w - 8
    else if w < 22 then -1 else if w < 24 then w - 9 else if w < 26 then -1
    else if w < 27 then w - 11 else if w < 30 then -1 else if w < 35 then w - 14
    else if w < 37 then -1 else if w < 38 then w - 16 else if w < 45 then -1
    else if w < 46 then w - 23 else if w < 48 then -1 else if w < 49 then w - 25
    else if w < 50 then -1 else if w < 51 then w - 26 else if w < 57 then -1
    else if w < 58 then w - 32 else if w < 60 then -1 else if w < 62 then w - 34
    else if w < 63 then -1 else if w < 66 then w - 35 else if w < 67 then -1
    else if w < 68 then w - 36 else -1
  }

  // The presence bits of the 72 field tokens, in table order.
  function FieldBit(w: nat): (b: int) {
    if w < 7 then w else if w < 8 then -1 else if w < 13 then w - 1 else if w < 14 then -1
    else if w < 21 then w - 2 else if w < 22 then -1 else if w < 24 then w - 3
    else if w < 25 then -1 else if w < 27 then w - 4 else if w < 28 then -1
    else if w < 41 then w - 5 else if w < 44 then -1 else if w < 51 then w - 8
    else if w < 52 then -1 else if w < 53 then w - 9 else if w < 56 then -1
    else if w < 68 then w - 12 else if w < 70 then w - 7 else -1
  }

  // Both are handed out in table order.
  lemma SlotIdsInOrder(w: nat, v: nat)
    requires w < v && FieldSlotId(w) >= 0 && FieldSlotId(v) >= 0
    ensures FieldSlotId(w) < FieldSlotId(v)
  {
  }

  lemma BitsInOrder(w: nat, v: nat)
    requires w < v && FieldBit(w) >= 0 && FieldBit(v) >= 0
    ensures FieldBit(w) < FieldBit(v)
  {
  }

  /** The repository's own table meets the assumption the store's proofs rest on.
      Tokens beyond the field rows (methods, schemes, cache directives) own
      neither accelerator nor bit. */
  lemma FieldTokensConsistent()
    ensures TokenTable(FieldSlotId, FieldBit).Consistent()
  {
    forall w: nat, v: nat | w < v && FieldSlotId(w) >= 0 && FieldSlotId(v) >= 0
      ensures FieldSlotId(w) != FieldSlotId(v)
    {
      SlotIdsInOrder(w, v);
    }
    forall w: nat, v: nat | w < v && FieldBit(w) >= 0 && FieldBit(v) >= 0
      ensures FieldBit(w) != FieldBit(v)
    {
      BitsInOrder(w, v);
    }
  }

  // ------------------------------------------------- the packed accelerators

  /** The four words of `m_slot_accelerators`, eight four-bit slot numbers in each. */
  type Accelerators = a: seq<bv32> | |a| == 4 witness [0, 0, 0, 0]

  const ALL_ONES: Accelerators := [0xFFFF_FFFF, 0xFFFF_FFFF, 0xFFFF_FFFF, 0xFFFF_FFFF]

  // The bit offset of nybble k in its word.
  function Shift(k: nat): (s: bv32)
    requires k < 8
    ensures s & 3 == 0 && s <= 28
  {
    if k == 0 then 0 else if k == 1 then 4 else if k == 2 then 8 else if k == 3 then 12
    else if k == 4 then 16 else if k == 5 then 20 else if k == 6 then 24 else 28
  }

  function ToWord(n: nat): (v: bv32)
    requires n < 16
    ensures v <= 15
  {
    if n == 0 then 0 else if n == 1 then 1 else if n == 2 then 2 else if n == 3 then 3
    else if n == 4 then 4 else if n == 5 then 5 else if n == 6 then 6 else if n == 7 then 7
    else if n == 8 then 8 else if n == 9 then 9 else if n == 10 then 10 else if n == 11 then 11
    else if n == 12 then 12 else if n == 13 then 13 else if n == 14 then 14 else 15
  }

  function FromWord(v: bv32): (n: nat)
    ensures n < 16
  {
    if v == 0 then 0 else if v == 1 then 1 else if v == 2 then 2 else if v == 3 then 3
    else if v == 4 then 4 else if v == 5 then 5 else if v == 6 then 6 else if v == 7 then 7
    else if v == 8 then 8 else if v == 9 then 9 else if v == 10 then 10 else if v == 11 then 11
    else if v == 12 then 12 else if v == 13 then 13 else if v == 14 then 14 else 15
  }

  function Nybble(w: bv32, s: bv32): (v: bv32)
    requires s <= 28
  {
    (w >> s) & 15
  }

  function Graft(w: bv32, s: bv32, v: bv32): (w': bv32)
    requires s <= 28
  {
    (w & !((15 as bv32) << s)) | (v << s)
  }

  function GetSlotNum(a: Accelerators, id: nat): (n: nat)
    requires id < 32
    ensures n < 16
  {
    FromWord(Nybble(a[id / 8], Shift(id % 8)))
  }

  function SetSlotNum(a: Accelerators, id: nat, n: nat): (a': Accelerators)
    requires id < 32 && n < 16
  {
    a[id / 8 := Graft(a[id / 8], Shift(id % 8), ToWord(n))]
  }

  lemma NybbleOfGraft(w: bv32, s: bv32, v: bv32, t: bv32)
    requires s & 3 == 0 && t & 3 == 0 && s <= 28 && t <= 28 && v <= 15
    ensures Nybble(Graft(w, s, v), t) == if s == t then v else Nybble(w, t)
  {
  }

  lemma WordRoundTrip(n: nat)
    requires n < 16
    ensures FromWord(ToWord(n)) == n
  {
  }

  lemma ShiftInjective(j: nat, k: nat)
    requires j < 8 && k < 8 && Shift(j) == Shift(k)
    ensures j == k
  {
  }

  /** The 32 packed accelerators behave like 32 separate variables. */
  lemma SetThenGet(a: Accelerators, id: nat, n: nat, other: nat)
    requires id < 32 && n < 16 && other < 32
    ensures GetSlotNum(SetSlotNum(a, id, n), other) == if other == id then n else GetSlotNum(a, other)
  {
    hide Nybble, Graft, FromWord, ToWord, Shift;
    NybbleOfGraft(a[id / 8], Shift(id % 8), ToWord(n), Shift(other % 8));
    WordRoundTrip(n);
    if Shift(other % 8) == Shift(id % 8) {
      ShiftInjective(other % 8, id % 8);
    }
  }
}

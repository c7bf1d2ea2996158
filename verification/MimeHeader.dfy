module MimeHeader {
  // The header object itself: slots live in 16-slot blocks, only the last of which may
  // have room, and every method updates the blocks, presence bits and accelerators in
  // place. Each method is proved against its specification in `MimeStore` and `MimeRuns`.

  import opened MimeTokens
  import opened MimeStore
  import opened MimeRuns
  import opened MimePlain

  // ------------------------------------------------------------------- blocks

  /** The slots in use, block after block. */
  function Flat(bs: seq<seq<Field>>): (s: seq<Field>) {
    if |bs| == 0 then [] else Flat(bs[..|bs| - 1]) + bs[|bs| - 1]
  }

  predicate BlocksOk(bs: seq<seq<Field>>) {
    && |bs| > 0
    && (forall b :: 0 <= b < |bs| - 1 ==> |bs[b]| == BLOCK_SLOTS)
    && |bs[|bs| - 1]| <= BLOCK_SLOTS
  }

  lemma {:induction false} FlatLength(bs: seq<seq<Field>>)
    requires BlocksOk(bs)
    ensures |Flat(bs)| == BLOCK_SLOTS * (|bs| - 1) + |bs[|bs| - 1]|
  {
    if |bs| > 1 {
      var front := bs[..|bs| - 1];
      assert front[|front| - 1] == bs[|bs| - 2];
      FlatLength(front);
    } else {
      assert Flat(bs[..0]) == [];
    }
  }

  /** Slot number 16 * block + index addresses the same field in both views. */
  lemma {:induction false} FlatAt(bs: seq<seq<Field>>, b: nat, x: nat)
    requires BlocksOk(bs) && b < |bs| && x < |bs[b]|
    ensures BLOCK_SLOTS * b + x < |Flat(bs)| && Flat(bs)[BLOCK_SLOTS * b + x] == bs[b][x]
  {
    FlatLength(bs);
    if |bs| > 1 {
      var front := bs[..|bs| - 1];
      FlatLength(front);
      if b < |bs| - 1 {
        FlatAt(front, b, x);
      }
    } else {
      assert Flat(bs[..0]) == [];
    }
  }

  lemma {:induction false} FlatUpdate(bs: seq<seq<Field>>, b: nat, x: nat, f: Field)
    requires BlocksOk(bs) && b < |bs| && x < |bs[b]|
    ensures BLOCK_SLOTS * b + x < |Flat(bs)|
    ensures Flat(bs[b := bs[b][x := f]]) == Flat(bs)[BLOCK_SLOTS * b + x := f]
  {
    FlatAt(bs, b, x);
    FlatLength(bs);
    var bs', front := bs[b := bs[b][x := f]], bs[..|bs| - 1];
    if b == |bs| - 1 {
      assert bs'[..|bs| - 1] == front;
      if |bs| > 1 { FlatLength(front); }
    } else {
      assert bs'[..|bs| - 1] == front[b := front[b][x := f]];
      FlatUpdate(front, b, x, f);
    }
  }

  /** A new field goes to the tail block, or to a new block when the tail is full. */
  function AppendSlot(bs: seq<seq<Field>>, f: Field): (bs': seq<seq<Field>>)
    requires BlocksOk(bs)
    ensures BlocksOk(bs')
  {
    if |bs[|bs| - 1]| >= BLOCK_SLOTS then bs + [[f]] else bs[|bs| - 1 := bs[|bs| - 1] + [f]]
  }

  lemma FlatAppend(bs: seq<seq<Field>>, f: Field)
    requires BlocksOk(bs)
    ensures Flat(AppendSlot(bs, f)) == Flat(bs) + [f]
  {
    var bs' := AppendSlot(bs, f);
    if |bs'| > |bs| {
      assert bs'[..|bs|] == bs;
    } else {
      assert bs'[..|bs| - 1] == bs[..|bs| - 1];
    }
  }

  lemma InBlock(bs: seq<seq<Field>>, k: nat)
    requires BlocksOk(bs)
    ensures k < |Flat(bs)| <==> k / BLOCK_SLOTS < |bs| && k % BLOCK_SLOTS < |bs[k / BLOCK_SLOTS]|
    ensures k < |Flat(bs)| ==> Flat(bs)[k] == bs[k / BLOCK_SLOTS][k % BLOCK_SLOTS]
  {
    FlatLength(bs);
    var b, x := k / BLOCK_SLOTS, k % BLOCK_SLOTS;
    assert k == BLOCK_SLOTS * b + x;
    if b < |bs| && x < |bs[b]| {
      FlatAt(bs, b, x);
    }
  }

  // ------------------------------------------------------------------- header

  class MimeHdr {
    const tokens: TokenTable
    var presence: set<int>
    var accel: Accelerators
    var blocks: seq<seq<Field>>

    ghost function State(): (h: Hdr)
      reads this
    {
      Hdr(presence, accel, Flat(blocks))
    }

    ghost predicate Valid()
      reads this
    {
      BlocksOk(blocks) && Inv(tokens, State())
    }

    /** `mime_hdr_init`. */
    constructor (tokens: TokenTable)
      requires tokens.Consistent()
      ensures Valid() && this.tokens == tokens && State() == Init()
    {
      this.tokens := tokens;
      presence := {};
      accel := ALL_ONES;
      blocks := [[]];
      new;
      assert Flat(blocks) == [] by { assert Flat(blocks[..0]) == []; }
      InitInv(tokens);
    }

    function At(k: nat): (f: Field)
      reads this
      requires BlocksOk(blocks) && k < |Flat(blocks)|
      ensures f == Flat(blocks)[k]
    {
      InBlock(blocks, k);
      blocks[k / BLOCK_SLOTS][k % BLOCK_SLOTS]
    }

    method Put(k: nat, f: Field)
      requires BlocksOk(blocks) && k < |Flat(blocks)|
      modifies this`blocks
      ensures BlocksOk(blocks) && Flat(blocks) == old(Flat(blocks))[k := f]
    {
      InBlock(blocks, k);
      FlatUpdate(blocks, k / BLOCK_SLOTS, k % BLOCK_SLOTS, f);
      var block := blocks[k / BLOCK_SLOTS];
      blocks := blocks[k / BLOCK_SLOTS := block[k % BLOCK_SLOTS := f]];
    }

    /** `_mime_hdr_field_list_search_by_slotnum`. */
    method SearchBySlotNum(slotNum: nat) returns (r: int)
      requires BlocksOk(blocks)
      ensures r == BySlotNum(Flat(blocks), slotNum)
      ensures r == if slotNum < |Flat(blocks)| then slotNum else NONE
    {
      InBlock(blocks, slotNum);
      if slotNum < BLOCK_SLOTS {
        r := if slotNum >= |blocks[0]| then NONE else slotNum;
      } else {
        var b, x := slotNum / BLOCK_SLOTS, slotNum % BLOCK_SLOTS;
        r := if b >= |blocks| || x >= |blocks[b]| then NONE else slotNum;
      }
    }

    /** `_mime_hdr_field_list_search_by_wks` and `_by_string`: the first live field in
        block order. */
    method Search(n: Name) returns (r: int)
      requires BlocksOk(blocks)
      ensures r == NextMatch(Flat(blocks), n, 0)
    {
      var b := 0;
      FlatLength(blocks);
      while b < |blocks|
        invariant 0 <= b <= |blocks|
        invariant forall j :: 0 <= j < BLOCK_SLOTS * b && j < |Flat(blocks)| ==> !Matches(Flat(blocks)[j], n)
      {
        var x := 0;
        while x < |blocks[b]|
          invariant 0 <= x <= |blocks[b]|
          invariant forall j :: 0 <= j < BLOCK_SLOTS * b + x && j < |Flat(blocks)| ==> !Matches(Flat(blocks)[j], n)
        {
          FlatAt(blocks, b, x);
          if Matches(blocks[b][x], n) {
            r := BLOCK_SLOTS * b + x;
            NextUnique(Flat(blocks), n, 0, r);
            return;
          }
          x := x + 1;
        }
        b := b + 1;
      }
      r := NONE;
      NextUnique(Flat(blocks), n, 0, r);
    }

    /** `mime_hdr_field_find`. */
    method FieldFind(n: Name, wks: bool) returns (r: int)
      requires Valid()
      ensures r == Find(tokens, State(), n, wks)
      ensures r == NextMatch(State().slots, n, 0)
    {
      FindIsScan(tokens, State(), n, wks);
      if n.Token? && wks {
        if tokens.bit(n.wks) >= 0 && tokens.bit(n.wks) !in presence {
          return NONE;
        }
        if tokens.slotId(n.wks) != -1 {
          var slotNum := GetSlotNum(accel, tokens.slotId(n.wks));
          if slotNum != SLOTNUM_UNKNOWN {
            r := SearchBySlotNum(slotNum);
            return;
          }
        }
      }
      r := Search(n);
    }

    /** `mime_field_create` and `mime_field_name_set`: the tail block, or a new one when
        it is full. */
    method FieldCreate(n: Name, value: string) returns (slot: nat)
      requires Valid()
      modifies this`blocks
      ensures Valid() && slot == |old(State()).slots|
      ensures State() == Create(old(State()), n, value)
      ensures Rows(State().slots) == PlainCreate(old(Rows(State().slots)), n, value)
    {
      CreateEffect(State(), n, value);
      var f := Field(n, value, Detached, false, NONE);
      CreateKeepsInv(tokens, State(), n, value);
      FlatAppend(blocks, f);
      FlatLength(blocks);
      var tail := |blocks| - 1;
      if |blocks[tail]| >= BLOCK_SLOTS {
        blocks := blocks + [[]];
        tail := tail + 1;
      }
      slot := BLOCK_SLOTS * tail + |blocks[tail]|;
      blocks := blocks[tail := blocks[tail] + [f]];
      assert [] + [f] == [f];
      assert blocks == AppendSlot(old(blocks), f);
    }

    /** Against `was`, only the accelerator of token `w` differs, and it reads `k`. */
    ghost predicate IndexEntry(was: Accelerators, w: nat, k: nat)
      reads this
      requires tokens.Consistent()
    {
      if tokens.slotId(w) < 0 then accel == was
      else forall id: nat :: id < 32 ==> GetSlotNum(accel, id) == if id == tokens.slotId(w) then k else GetSlotNum(was, id)
    }

    lemma EntryIsSet(w: nat, k: nat)
      requires tokens.Consistent() && tokens.slotId(w) >= 0 && k < 16
      ensures forall id: nat :: id < 32 ==>
        GetSlotNum(SetSlotNum(accel, tokens.slotId(w), k), id) == (if id == tokens.slotId(w) then k else GetSlotNum(accel, id))
    {
      hide GetSlotNum, SetSlotNum;
      forall id: nat | id < 32
        ensures GetSlotNum(SetSlotNum(accel, tokens.slotId(w), k), id) ==
          if id == tokens.slotId(w) then k else GetSlotNum(accel, id)
      {
        SetThenGet(accel, tokens.slotId(w), k, id);
      }
    }

    method SetAcceleratorsAndPresenceBits(n: Name, slot: nat)
      requires tokens.Consistent()
      modifies this`presence, this`accel
      ensures State() == SetIndex(tokens, old(State()), n, slot)
      ensures n.Token? ==> presence == old(presence) + tokens.Mask(n.wks) && IndexEntry(old(accel), n.wks, if slot < 14 then slot else 14)
      ensures n.Text? ==> presence == old(presence) && accel == old(accel)
    {
      if n.Token? && tokens.slotId(n.wks) >= 0 {
        EntryIsSet(n.wks, AccelFor(slot));
      }
      if !n.Token? {
        return;
      }
      presence := presence + tokens.Mask(n.wks);
      if tokens.slotId(n.wks) != -1 {
        if slot < SLOTNUM_UNKNOWN {
          accel := SetSlotNum(accel, tokens.slotId(n.wks), slot);
        } else {
          accel := SetSlotNum(accel, tokens.slotId(n.wks), SLOTNUM_UNKNOWN);
        }
      }
    }

    method UnsetAcceleratorsAndPresenceBits(n: Name)
      requires tokens.Consistent()
      modifies this`presence, this`accel
      ensures State() == UnsetIndex(tokens, old(State()), n)
      ensures n.Token? ==> presence == old(presence) - tokens.Mask(n.wks) && IndexEntry(old(accel), n.wks, 14)
      ensures n.Text? ==> presence == old(presence) && accel == old(accel)
    {
      if n.Token? && tokens.slotId(n.wks) >= 0 {
        EntryIsSet(n.wks, SLOTNUM_UNKNOWN);
      }
      if !n.Token? {
        return;
      }
      presence := presence - tokens.Mask(n.wks);
      if tokens.slotId(n.wks) != -1 {
        accel := SetSlotNum(accel, tokens.slotId(n.wks), SLOTNUM_UNKNOWN);
      }
    }

    /** The insertion walk of `mime_hdr_field_attach`; `nextSlot` keeps the second dup's
        slot number throughout, as the source's `next_slotnum` does. */
    method Walk(head: nat, i: nat) returns (prevDup: nat, prevSlot: nat)
      requires Valid()
      requires head < |State().slots| && At(head).readiness.Live? && head != i
      ensures head > i ==> prevDup == head && prevSlot == head
      ensures head < i && At(head).next != i ==>
                prevSlot < i && prevDup == WalkEnd(State().slots, head, i)
    {
      ghost var s := State().slots;
      prevDup, prevSlot := head, head;
      var nextDup := At(head).next;
      var nextSlot := nextDup;
      while prevSlot < i
        invariant prevDup < |s| && s[prevDup].readiness.Live? && nextDup == s[prevDup].next
        invariant prevDup == head ==> prevSlot == head && nextSlot == nextDup
        invariant prevDup != head ==>
          && NONE != s[head].next <= i && prevSlot == s[head].next == nextSlot
          && LastDup(s, prevDup) == LastDup(s, head)
        decreases |s| - prevDup
      {
        if nextDup == NONE { break; }
        if nextSlot > i { break; }
        prevDup := nextDup;
        prevSlot := nextSlot;
        nextDup := At(prevDup).next;
      }
    }

    // The new field becomes the head, in front of `head` if there is one.
    method LinkFirst(i: nat, head: int)
      requires Valid() && i < |State().slots| && At(i).readiness.Detached?
      requires head == NextMatch(State().slots, At(i).name, 0) && (head == NONE || head > i)
      modifies this`presence, this`accel, this`blocks
      ensures BlocksOk(blocks) && State() == AttachAt(tokens, old(State()), i, head)
    {
      var f := At(i);
      if head == NONE {
        Put(i, f.(readiness := Live, dupHead := true));
      } else {
        Put(i, f.(readiness := Live, dupHead := true, next := head));
        Put(head, At(head).(dupHead := false));
      }
      SetAcceleratorsAndPresenceBits(f.name, i);
    }

    // The new field is patched in behind `prevDup`.
    method LinkBehind(i: nat, head: nat, prevDup: nat)
      requires Valid() && i < |State().slots| && At(i).readiness.Detached?
      requires head == NextMatch(State().slots, At(i).name, 0) && head < i
      requires prevDup == WalkEnd(State().slots, head, i)
      modifies this`blocks
      ensures BlocksOk(blocks) && State() == AttachAt(tokens, old(State()), i, head)
    {
      Put(i, At(i).(readiness := Live, dupHead := false, next := At(prevDup).next));
      Put(prevDup, At(prevDup).(next := i));
    }

    /** `mime_hdr_field_attach`. The header stays in good order exactly when the slot
        fits the dup chain. */
    method FieldAttach(i: nat, check: bool, prev: int)
      requires Valid() && AttachArgs(State().slots, i, check, prev)
      modifies this`presence, this`accel, this`blocks
      ensures BlocksOk(blocks) && State() == Attach(tokens, old(State()), i, check, prev)
      ensures Valid() <==> (old(At(i).readiness.Detached?) ==> InsertInOrder(old(State()).slots, i))
      ensures Rows(State().slots) == PlainAttach(old(Rows(State().slots)), i)
    {
      AttachEffect(tokens, State(), i, check, prev);
      if !At(i).readiness.Detached? {
        return;
      }
      ghost var h := State();
      HeadIsFirst(tokens, h, i, check, prev);
      var head := prev;
      if check || (prev != NONE && !At(prev).dupHead) {
        head := FieldFind(At(i).name, true);
      }
      if head == NONE {
        LinkFirst(i, head);
      } else {
        var prevDup, prevSlot := Walk(head, i);
        if prevSlot > i {
          LinkFirst(i, head);
        } else {
          LinkBehind(i, head, prevDup);
        }
      }
      if InsertInOrder(h.slots, i) {
        AttachKeepsInv(tokens, h, i, check, prev);
      } else {
        AttachOutOfOrderBreaks(tokens, h, i, check, prev);
      }
    }

    // A dup head leaves: the next dup, if there is one, becomes the head.
    method UnlinkHead(i: nat)
      requires Valid() && i < |State().slots| && At(i).readiness.Live? && At(i).dupHead
      modifies this`presence, this`accel, this`blocks
      ensures BlocksOk(blocks) && State() == Detach(tokens, old(State()), i)
    {
      hide AccelExact, LooseEnds, LiveMask, SetSlotNum, GetSlotNum, IndexEntry;
      var n, next := At(i).name, At(i).next;
      Put(i, At(i).(readiness := Detached, next := NONE));
      if next == NONE {
        UnsetAcceleratorsAndPresenceBits(n);
      } else {
        Put(next, At(next).(dupHead := true));
        SetAcceleratorsAndPresenceBits(n, next);
      }
    }

    // The walk to the dup in front of `i`.
    method WalkTo(i: nat) returns (prev: nat)
      requires Valid() && i < |State().slots| && At(i).readiness.Live? && !At(i).dupHead
      ensures prev == Predecessor(State().slots, NextMatch(State().slots, At(i).name, 0), i)
    {
      hide AccelExact, LooseEnds, LiveMask;
      ghost var s, n := State().slots, At(i).name;
      prev := FieldFind(At(i).name, true);
      while At(prev).next != i
        invariant 0 <= prev < i && Matches(s[prev], n)
        invariant Predecessor(s, prev, i) == Predecessor(s, NextMatch(s, n, 0), i)
        decreases i - prev
      {
        prev := At(prev).next;
      }
    }

    // A later dup is patched out from its predecessor.
    method UnlinkDup(i: nat)
      requires Valid() && i < |State().slots| && At(i).readiness.Live? && !At(i).dupHead
      modifies this`blocks
      ensures BlocksOk(blocks) && State() == Detach(tokens, old(State()), i)
    {
      hide AccelExact, LooseEnds, LiveMask;
      var next := At(i).next;
      var prev := WalkTo(i);
      Put(i, At(i).(readiness := Detached, next := NONE));
      Put(prev, At(prev).(next := next));
    }

    /** One step of `mime_hdr_field_detach`: this field only. */
    method DetachOne(i: nat)
      requires Valid() && i < |State().slots| && At(i).readiness.Live?
      modifies this`presence, this`accel, this`blocks
      ensures Valid() && State() == Detach(tokens, old(State()), i)
    {
      DetachKeepsInv(tokens, State(), i);
      if At(i).dupHead {
        UnlinkHead(i);
      } else {
        UnlinkDup(i);
      }
    }

    /** `mime_hdr_field_detach`. */
    method FieldDetach(i: nat, all: bool)
      requires Valid() && i < |State().slots| && At(i).readiness.Live?
      modifies this`presence, this`accel, this`blocks
      ensures Valid()
      ensures State() == if all then RemoveAll(tokens, old(State()), i, false)
                         else Remove(tokens, old(State()), i, false)
      ensures Rows(State().slots) == PlainRemove(old(Rows(State().slots)), i, all, false)
      decreases |State().slots| - i
    {
      var next := At(i).next;
      RemovalEffect(tokens, State(), i, all, false);
      RemoveEffect(tokens, State(), i, false);
      DetachOne(i);
      if all && next != NONE {
        FieldDetach(next, all);
      }
    }

    // Detach and destroy one field.
    method DeleteOne(i: nat)
      requires Valid() && i < |State().slots| && At(i).readiness.Live?
      modifies this`presence, this`accel, this`blocks
      ensures Valid() && State() == Remove(tokens, old(State()), i, true)
    {
      DetachOne(i);
      DestroyKeepsInv(tokens, State(), i);
      Put(i, At(i).(readiness := Deleted));
    }

    /** `mime_hdr_field_delete`. */
    method FieldDelete(i: nat, all: bool)
      requires Valid() && i < |State().slots| && At(i).readiness.Live?
      modifies this`presence, this`accel, this`blocks
      ensures Valid()
      ensures State() == if all then RemoveAll(tokens, old(State()), i, true)
                         else Remove(tokens, old(State()), i, true)
      ensures Rows(State().slots) == PlainRemove(old(Rows(State().slots)), i, all, true)
    {
      RemovalEffect(tokens, State(), i, all, true);
      if all {
        var field: int := i;
        while field != NONE
          invariant Valid()
          invariant field == NONE ==> State() == RemoveAll(tokens, old(State()), i, true)
          invariant field != NONE ==>
            && 0 <= field < |State().slots| && At(field).readiness.Live?
            && RemoveAll(tokens, State(), field, true) == RemoveAll(tokens, old(State()), i, true)
          decreases if field == NONE then 0 else |State().slots| - field + 1
        {
          var next := At(field).next;
          RemoveEffect(tokens, State(), field, true);
          DeleteOne(field);
          field := next;
        }
      } else {
        DeleteOne(i);
      }
    }

    /** `mime_hdr_prepare_for_value_set`. */
    method PrepareForValueSet(n: Name, wks: bool) returns (slot: nat)
      requires Valid()
      modifies this`presence, this`accel, this`blocks
      ensures Valid() && Prepared(State(), slot) == Prepare(tokens, old(State()), n, wks)
      ensures Rows(State().slots) == PlainPrepare(old(Rows(State().slots)), n)
    {
      PrepareEffect(tokens, State(), n, wks);
      hide AccelExact, LooseEnds, LiveMask, HeadsFlagged, RemoveAll, Attach;
      var field := FieldFind(n, wks);
      if field == NONE {
        slot := FieldCreate(n, "");
        NewestFits(State().slots, slot);
        CreateKeepsInv(tokens, old(State()), n, "");
        FieldAttach(slot, false, NONE);
      } else if At(field).next != NONE {
        ReplaceLeavesOne(tokens, State(), n, field);
        FieldDelete(field, true);
        CreateKeepsInv(tokens, State(), n, "");
        slot := FieldCreate(n, "");
        NewestFits(State().slots, slot);
        FieldAttach(slot, false, NONE);
      } else {
        slot := field;
      }
    }
  }
}

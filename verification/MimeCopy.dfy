module MimeCopy {
  // Copying a header onto another one. Here blocks have addresses and a dup pointer is
  // an address (block, slot), so a copied pointer first still points into the source and
  // has to be rebased.

  import opened MimeTokens
  import opened MimeStore

  /** A field pointer: NULL, or slot `slot` of the block at address `block`. */
  datatype Ptr = Null | To(block: nat, slot: nat)

  datatype PField = PField(name: Name, value: string, readiness: Readiness, dupHead: bool, next: Ptr)

  /** A field block: its address and its slots below the free top. */
  datatype Block = Block(addr: nat, fields: seq<PField>)

  ghost predicate DistinctAddrs(bs: seq<Block>) {
    forall a, b :: 0 <= a < b < |bs| ==> bs[a].addr != bs[b].addr
  }

  // p points at a used slot of block b of the list.
  ghost predicate PointsInto(bs: seq<Block>, b: nat, p: Ptr) {
    b < |bs| && p.To? && p.block == bs[b].addr && p.slot < |bs[b].fields|
  }

  /** The dup pointers of live fields point at used slots of this very list. */
  ghost predicate Closed(bs: seq<Block>) {
    forall b, x | 0 <= b < |bs| && 0 <= x < |bs[b].fields|
                  && bs[b].fields[x].readiness.Live? && bs[b].fields[x].next.To? ::
      exists c: nat :: PointsInto(bs, c, bs[b].fields[x].next)
  }

  // ---------------------------------------------------------- the slot-number view

  /** The slot number a pointer denotes in a list; -2 for a pointer out of the list. */
  function SlotNum(bs: seq<Block>, p: Ptr, from: nat): (k: int)
    requires from <= |bs|
    decreases |bs| - from
  {
    if p.Null? then NONE
    else if from == |bs| then -2
    else if bs[from].addr == p.block && p.slot < |bs[from].fields| then BLOCK_SLOTS * from + p.slot
    else SlotNum(bs, p, from + 1)
  }

  /** The field as the store sees it: pointers as slot numbers, and only live ones count. */
  function View(bs: seq<Block>, f: PField): (g: Field) {
    Field(f.name, f.value, f.readiness, f.dupHead, if f.readiness.Live? then SlotNum(bs, f.next, 0) else NONE)
  }

  function ViewFields(bs: seq<Block>, fs: seq<PField>): (s: seq<Field>)
    ensures |s| == |fs| && forall x :: 0 <= x < |fs| ==> s[x] == View(bs, fs[x])
  {
    if |fs| == 0 then [] else ViewFields(bs, fs[..|fs| - 1]) + [View(bs, fs[|fs| - 1])]
  }

  /** All slots of the list in slot order. */
  function Slots(bs: seq<Block>, upto: nat): (s: seq<Field>)
    requires upto <= |bs|
  {
    if upto == 0 then [] else Slots(bs, upto - 1) + ViewFields(bs, bs[upto - 1].fields)
  }

  // -------------------------------------------------------------------- the copy

  /** Rebase a pointer from the source list into the list that parallels it. */
  function Rebased(src: seq<Block>, dst: seq<Block>, p: Ptr, from: nat): (q: Ptr)
    requires |src| == |dst| && from <= |src|
    decreases |src| - from
  {
    if p.Null? || from == |src| then p
    else if p.block == src[from].addr && p.slot < |src[from].fields| then To(dst[from].addr, p.slot)
    else Rebased(src, dst, p, from + 1)
  }

  function CopiedField(src: seq<Block>, dst: seq<Block>, f: PField): (g: PField)
    requires |src| == |dst|
  {
    if f.readiness.Live? then f.(next := Rebased(src, dst, f.next, 0)) else f
  }

  /** `dst` is the copy of `src`: block by block and slot by slot, pointers rebased. */
  ghost predicate IsCopy(src: seq<Block>, dst: seq<Block>) {
    && |dst| == |src|
    && forall b :: 0 <= b < |src| ==>
         && |dst[b].fields| == |src[b].fields|
         && forall x :: 0 <= x < |src[b].fields| ==>
              dst[b].fields[x] == CopiedField(src, dst, src[b].fields[x])
  }

  lemma {:induction false} RebasedWithin(src: seq<Block>, dst: seq<Block>, p: Ptr, from: nat)
    requires |src| == |dst| && from <= |src|
    requires DistinctAddrs(src) && DistinctAddrs(dst)
    requires forall b :: 0 <= b < |src| ==> |dst[b].fields| == |src[b].fields|
    requires p.To? && exists c: nat :: from <= c && PointsInto(src, c, p)
    ensures SlotNum(dst, Rebased(src, dst, p, from), from) == SlotNum(src, p, from) >= 0
    ensures exists c: nat :: PointsInto(dst, c, Rebased(src, dst, p, from))
    decreases |src| - from
  {
    var c: nat :| from <= c && PointsInto(src, c, p);
    if from == c {
      assert PointsInto(dst, c, Rebased(src, dst, p, from));
    } else {
      RebasedWithin(src, dst, p, from + 1);
      assert src[from].addr != src[c].addr;
      var q := Rebased(src, dst, p, from + 1);
      assert q == To(dst[c].addr, p.slot) by { RebasedAt(src, dst, p, from + 1, c); }
    }
  }

  lemma {:induction false} RebasedAt(src: seq<Block>, dst: seq<Block>, p: Ptr, from: nat, c: nat)
    requires |src| == |dst| && from <= c && DistinctAddrs(src) && PointsInto(src, c, p)
    ensures Rebased(src, dst, p, from) == To(dst[c].addr, p.slot)
    decreases c - from
  {
    if from < c {
      assert src[from].addr != src[c].addr;
      RebasedAt(src, dst, p, from + 1, c);
    }
  }

  lemma CopiedViewSame(src: seq<Block>, dst: seq<Block>, b: nat, x: nat)
    requires DistinctAddrs(src) && DistinctAddrs(dst) && Closed(src) && IsCopy(src, dst)
    requires b < |src| && x < |src[b].fields|
    ensures View(dst, dst[b].fields[x]) == View(src, src[b].fields[x])
  {
    var f := src[b].fields[x];
    assert dst[b].fields[x] == CopiedField(src, dst, f);
    if f.readiness.Live? && f.next.To? {
      RebasedWithin(src, dst, f.next, 0);
    }
  }

  /** The copy is isomorphic to its source: the same slot table, slot by slot. */
  lemma {:induction false} CopySlots(src: seq<Block>, dst: seq<Block>, upto: nat)
    requires DistinctAddrs(src) && DistinctAddrs(dst) && Closed(src) && IsCopy(src, dst)
    requires upto <= |src|
    ensures Slots(dst, upto) == Slots(src, upto)
  {
    if upto > 0 {
      CopySlots(src, dst, upto - 1);
      var s, s' := ViewFields(src, src[upto - 1].fields), ViewFields(dst, dst[upto - 1].fields);
      forall x | 0 <= x < |s|
        ensures s'[x] == s[x]
      {
        CopiedViewSame(src, dst, upto - 1, x);
      }
    }
  }

  /** Every dup pointer of the copy stays inside the copy; none is left in the source. */
  lemma CopyClosed(src: seq<Block>, dst: seq<Block>)
    requires DistinctAddrs(src) && DistinctAddrs(dst) && Closed(src) && IsCopy(src, dst)
    requires forall a, b :: 0 <= a < |src| && 0 <= b < |dst| ==> src[a].addr != dst[b].addr
    ensures Closed(dst)
    ensures forall b, x, a: nat :: 0 <= b < |dst| && 0 <= x < |dst[b].fields| && dst[b].fields[x].readiness.Live?
              ==> !PointsInto(src, a, dst[b].fields[x].next)
  {
    forall b, x | 0 <= b < |dst| && 0 <= x < |dst[b].fields| && dst[b].fields[x].readiness.Live?
      && dst[b].fields[x].next.To?
      ensures exists c: nat :: PointsInto(dst, c, dst[b].fields[x].next)
    {
      var f := src[b].fields[x];
      assert dst[b].fields[x] == CopiedField(src, dst, f);
      RebasedWithin(src, dst, f.next, 0);
    }
  }

  // ------------------------------------------------------------------ the header

  /** A header as an object: the block list (the first block is inline), the tail pointer
      and the index words. */
  class BlockHdr {
    var presence: set<int>
    var accel: Accelerators
    var blocks: seq<Block>
    var tail: nat

    ghost predicate Valid()
      reads this
    {
      && |blocks| > 0 && DistinctAddrs(blocks) && Closed(blocks)
      && tail == blocks[|blocks| - 1].addr
    }

    ghost function State(): (h: Hdr)
      reads this
    {
      Hdr(presence, accel, Slots(blocks, |blocks|))
    }

    constructor (addr: nat)
      ensures Valid() && State() == Init() && blocks[0].addr == addr
    {
      presence := {};
      accel := ALL_ONES;
      blocks := [Block(addr, [])];
      tail := addr;
      new;
      assert Slots(blocks, 0) == [] && ViewFields(blocks, blocks[0].fields) == [];
    }

    /** `mime_hdr_copy_onto`. `spare` are the addresses the allocator hands out for the
        chained blocks; this header keeps the address of its inline first block. */
    method CopyOnto(d: BlockHdr, spare: seq<nat>)
      requires Valid() && d.Valid() && d != this
      requires |spare| == |blocks| - 1
      requires forall a :: 0 <= a < |spare| ==> spare[a] != d.blocks[0].addr
      requires forall a, b :: 0 <= a < b < |spare| ==> spare[a] != spare[b]
      requires forall a, b :: 0 <= a < |blocks| && 0 <= b < |spare| ==> blocks[a].addr != spare[b]
      requires forall a :: 0 <= a < |blocks| ==> blocks[a].addr != d.blocks[0].addr
      modifies d
      ensures d.Valid() && d.State() == State()
      ensures IsCopy(blocks, d.blocks)
      ensures d.blocks[0].addr == old(d.blocks[0].addr)
      ensures forall b, x, a: nat | 0 <= b < |d.blocks| && 0 <= x < |d.blocks[b].fields|
                                    && d.blocks[b].fields[x].readiness.Live? ::
                !PointsInto(blocks, a, d.blocks[b].fields[x].next)
    {
      d.presence, d.accel := presence, accel;
      var first := d.blocks[0].addr;
      d.blocks := [Block(first, blocks[0].fields)];
      d.tail := first;
      ghost var addrs := [first] + spare;
      var b := 1;
      while b < |blocks|
        invariant 1 <= b <= |blocks| == |addrs| && |d.blocks| == b && d.tail == addrs[b - 1]
        invariant d.presence == presence && d.accel == accel
        invariant forall c :: 0 <= c < b ==> d.blocks[c] == Block(addrs[c], blocks[c].fields)
      {
        d.blocks := d.blocks + [Block(spare[b - 1], blocks[b].fields)];
        d.tail := spare[b - 1];
        b := b + 1;
      }
      ListAdjust(blocks, d);
      CopySlots(blocks, d.blocks, |blocks|);
      CopyClosed(blocks, d.blocks);
    }
  }

  // The new list under repair: addresses fixed, fields done up to slot x of block b.
  ghost predicate Adjusted(src: seq<Block>, raw: seq<Block>, cur: seq<Block>, b: nat, x: nat) {
    && |cur| == |raw| == |src|
    && forall c :: 0 <= c < |src| ==>
         && cur[c].addr == raw[c].addr && |cur[c].fields| == |src[c].fields|
         && forall y :: 0 <= y < |src[c].fields| ==>
              cur[c].fields[y] == if c < b || (c == b && y < x) then CopiedField(src, raw, src[c].fields[y])
                                  else src[c].fields[y]
  }

  lemma {:induction false} RebasedByAddr(src: seq<Block>, dst: seq<Block>, dst': seq<Block>, p: Ptr, from: nat)
    requires |src| == |dst| == |dst'| && from <= |src|
    requires forall b :: 0 <= b < |src| ==> dst[b].addr == dst'[b].addr
    ensures Rebased(src, dst, p, from) == Rebased(src, dst', p, from)
    decreases |src| - from
  {
    if from < |src| {
      RebasedByAddr(src, dst, dst', p, from + 1);
    }
  }

  /** `relocate`: find the source block the pointer lies in and keep its offset. */
  method Relocate(src: seq<Block>, dst: seq<Block>, p: Ptr) returns (q: Ptr)
    requires |src| == |dst|
    ensures q == Rebased(src, dst, p, 0)
  {
    q := p;
    var b := 0;
    while b < |src|
      invariant 0 <= b <= |src| && q == p
      invariant Rebased(src, dst, p, 0) == Rebased(src, dst, p, b)
    {
      if p.To? && p.block == src[b].addr && p.slot < |src[b].fields| {
        q := To(dst[b].addr, p.slot);
        return;
      }
      b := b + 1;
    }
  }

  /** `mime_hdr_field_block_list_adjust`. */
  method ListAdjust(src: seq<Block>, d: BlockHdr)
    requires |d.blocks| == |src|
    requires forall c :: 0 <= c < |src| ==> d.blocks[c].fields == src[c].fields
    modifies d`blocks
    ensures IsCopy(src, d.blocks)
    ensures forall c :: 0 <= c < |src| ==> d.blocks[c].addr == old(d.blocks)[c].addr
  {
    ghost var raw := d.blocks;
    var b := 0;
    while b < |d.blocks|
      invariant 0 <= b <= |src| && Adjusted(src, raw, d.blocks, b, 0)
    {
      var x := 0;
      while x < |d.blocks[b].fields|
        invariant |d.blocks| == |src| && 0 <= x <= |src[b].fields| && Adjusted(src, raw, d.blocks, b, x)
      {
        var f := d.blocks[b].fields[x];
        RebasedByAddr(src, raw, d.blocks, f.next, 0);
        if f.readiness.Live? && f.next.To? {
          var q := Relocate(src, d.blocks, f.next);
          d.blocks := d.blocks[b := Block(d.blocks[b].addr, d.blocks[b].fields[x := f.(next := q)])];
        }
        x := x + 1;
      }
      b := b + 1;
    }
    forall c, y | 0 <= c < |src| && 0 <= y < |src[c].fields|
      ensures d.blocks[c].fields[y] == CopiedField(src, d.blocks, src[c].fields[y])
    {
      RebasedByAddr(src, raw, d.blocks, src[c].fields[y].next, 0);
    }
  }
}

module HdrHeap {
  // The string side of a header heap as an object: one read/write string heap, three
  // read-only slots, the string references of the heap's objects, and the address space
  // they point into. Allocation, demotion, coalescing and inheriting are proved never to
  // lose, damage or overlap a string.

  import opened HdrStrings
  import opened HdrSlots

  datatype MaybeHeap = NoHeap | Heap(h: StrHeap)

  function SlotRegions(ss: seq<Slot>): (rs: seq<Region>) {
    if |ss| == 0 then []
    else SlotRegions(ss[..|ss| - 1]) +
         (if ss[|ss| - 1].Used? then [Region(ss[|ss| - 1].start, ss[|ss| - 1].len)] else [])
  }

  /** The memory in which strings may lie: the used part of the read/write heap and the slots. */
  function Areas(rw: MaybeHeap, ss: seq<Slot>): (rs: seq<Region>) {
    (if rw.Heap? then [Region(rw.h.base + STR_HEAP_HDR_SIZE, rw.h.used)] else []) + SlotRegions(ss)
  }

  function Text(mem: seq<char>, s: Str): (t: string)
    requires s.At? ==> s.ptr + s.len <= |mem|
  {
    if s.Null? then "" else mem[s.ptr..s.ptr + s.len]
  }

  ghost predicate InMemory(mem: seq<char>, ss: seq<Str>) {
    forall i :: 0 <= i < |ss| && ss[i].At? ==> ss[i].ptr + ss[i].len <= |mem|
  }

  ghost predicate FreePartUnused(h: StrHeap, ss: seq<Str>)
    requires h.Valid()
  {
    forall i :: 0 <= i < |ss| ==> Apart(At(h.FreeStart(), h.FreeSize()), ss[i])
  }

  /** No string is lost and each reads back byte for byte. */
  ghost predicate SameStrings(mem: seq<char>, ss: seq<Str>, mem': seq<char>, ss': seq<Str>) {
    && InMemory(mem, ss) && InMemory(mem', ss') && NoneLost(ss, ss')
    && forall i :: 0 <= i < |ss| ==> Len(ss'[i]) == Len(ss[i]) && Text(mem', ss'[i]) == Text(mem, ss[i])
  }

  // -------------------------------------------------------------- facts about areas

  lemma {:induction false} SlotRegionsIn(ss: seq<Slot>, i: nat)
    requires i < |ss| && ss[i].Used?
    ensures exists k :: 0 <= k < |SlotRegions(ss)| && SlotRegions(ss)[k] == Region(ss[i].start, ss[i].len)
  {
    var n := |ss| - 1;
    var rs := SlotRegions(ss[..n]);
    if i < n {
      assert ss[..n][i] == ss[i];
      SlotRegionsIn(ss[..n], i);
      var k :| 0 <= k < |rs| && rs[k] == Region(ss[i].start, ss[i].len);
      assert SlotRegions(ss)[k] == rs[k];
    } else {
      assert SlotRegions(ss)[|rs|] == Region(ss[i].start, ss[i].len);
    }
  }

  lemma {:induction false} RegionsOfSlots(ss: seq<Slot>, k: nat)
    requires k < |SlotRegions(ss)|
    ensures exists i :: 0 <= i < |ss| && ss[i].Used? && SlotRegions(ss)[k] == Region(ss[i].start, ss[i].len)
  {
    var n := |ss| - 1;
    if k < |SlotRegions(ss[..n])| {
      RegionsOfSlots(ss[..n], k);
      var i :| 0 <= i < n && ss[..n][i].Used? && SlotRegions(ss[..n])[k] == Region(ss[..n][i].start, ss[..n][i].len);
      assert ss[i] == ss[..n][i];
    } else {
      assert ss[n].Used?;
    }
  }

  /** Where a string lies: in the used part of the read/write heap or in a slot. */
  ghost predicate Homed(s: Str, rw: MaybeHeap, ss: seq<Slot>, extra: seq<Region>) {
    || s.Null?
    || (rw.Heap? && Inside(s, Region(rw.h.base + STR_HEAP_HDR_SIZE, rw.h.used)))
    || (exists i :: 0 <= i < |ss| && ss[i].Used? && Inside(s, Region(ss[i].start, ss[i].len)))
    || (exists i :: 0 <= i < |extra| && Inside(s, extra[i]))
  }

  lemma HomedIsInside(s: Str, rw: MaybeHeap, ss: seq<Slot>, extra: seq<Region>)
    requires Homed(s, rw, ss, extra)
    requires |Areas(rw, ss) + extra| > 0
    ensures InOne(s, Areas(rw, ss) + extra)
  {
    var a, rs := Areas(rw, ss), Areas(rw, ss) + extra;
    if s.Null? {
      assert Inside(s, rs[0]);
    } else if rw.Heap? && Inside(s, Region(rw.h.base + STR_HEAP_HDR_SIZE, rw.h.used)) {
      assert rs[0] == a[0];
    } else if exists i :: 0 <= i < |ss| && ss[i].Used? && Inside(s, Region(ss[i].start, ss[i].len)) {
      var i :| 0 <= i < |ss| && ss[i].Used? && Inside(s, Region(ss[i].start, ss[i].len));
      SlotRegionsIn(ss, i);
      var k :| 0 <= k < |SlotRegions(ss)| && SlotRegions(ss)[k] == Region(ss[i].start, ss[i].len);
      var k' := if rw.Heap? then k + 1 else k;
      assert rs[k'] == a[k'] == SlotRegions(ss)[k];
    } else {
      var i :| 0 <= i < |extra| && Inside(s, extra[i]);
      assert rs[|a| + i] == extra[i];
    }
  }

  lemma {:induction false} TotalSizeConcat(a: seq<Region>, b: seq<Region>)
    ensures TotalSize(a + b) == TotalSize(a) + TotalSize(b)
    decreases |b|
  {
    if |b| == 0 {
      assert a + b == a;
    } else {
      assert (a + b)[..|a + b| - 1] == a + b[..|b| - 1];
      TotalSizeConcat(a, b[..|b| - 1]);
    }
  }

  lemma {:induction false} AllNull(ss: seq<Str>)
    requires forall i :: 0 <= i < |ss| ==> ss[i].Null?
    ensures TotalLen(ss) == 0
  {
    if |ss| > 0 {
      AllNull(ss[..|ss| - 1]);
    }
  }

  /** What coalescing asks for is always enough. */
  lemma RoomForAll(ss: seq<Str>, rw: MaybeHeap, slots: seq<Slot>, extra: seq<Region>)
    requires AllApart(ss) && forall i :: 0 <= i < |ss| ==> Homed(ss[i], rw, slots, extra)
    requires rw.Heap? ==> rw.h.Valid()
    ensures TotalLen(ss) <= (if rw.Heap? then rw.h.size else 0) + TotalSize(SlotRegions(slots)) + TotalSize(extra)
  {
    var rs := Areas(rw, slots) + extra;
    if |rs| == 0 {
      assert SlotRegions(slots) == [];
      forall i | 0 <= i < |ss|
        ensures ss[i].Null?
      {
        if exists k :: 0 <= k < |slots| && slots[k].Used? {
          var k :| 0 <= k < |slots| && slots[k].Used?;
          SlotRegionsIn(slots, k);
        }
      }
      AllNull(ss);
    } else {
      forall i | 0 <= i < |ss|
        ensures InOne(ss[i], rs)
      {
        HomedIsInside(ss[i], rw, slots, extra);
      }
      assert AllInside(ss, rs);
      StringsFit(ss, rs);
      TotalSizeConcat(Areas(rw, slots), extra);
      AreasSize(rw, slots);
    }
  }

  // ------------------------------------------------------------------------ the heap

  class StringHeap {
    var mem: seq<char>
    var rw: MaybeHeap
    var ronly: seq<Slot>
    var lost: nat
    var strs: seq<Str>

    /** The strings lie in the heaps (or in `extra`), in memory, apart from each other and
        from the free part of the read/write heap. */
    ghost predicate Holds(extra: seq<Region>)
      reads this
    {
      && |ronly| == SLOTS && InMemory(mem, strs) && AllApart(strs)
      && (forall i :: 0 <= i < |strs| ==> Homed(strs[i], rw, ronly, extra))
      && (rw.Heap? ==> rw.h.Valid() && rw.h.base + rw.h.size <= |mem| && FreePartUnused(rw.h, strs))
    }

    ghost predicate Valid()
      reads this
    {
      Holds([])
    }

    constructor ()
      ensures Valid() && strs == [] && rw == NoHeap && ronly == [Free, Free, Free]
    {
      mem, rw, ronly, lost, strs := [], NoHeap, [Free, Free, Free], 0, [];
    }

    /** `new_HdrStrHeap`: fresh memory, one byte away from everything else. */
    method NewStrHeap(requested: nat) returns (h: StrHeap)
      modifies this`mem
      ensures h == StrHeap(|old(mem)| + 1, NewHeapSize(requested), 0) && h.Valid()
      ensures |mem| == h.base + h.size && old(mem) <= mem
    {
      h := StrHeap(|mem| + 1, NewHeapSize(requested), 0);
      mem := mem + seq(1 + h.size, _ => ' ');
    }

    // memcpy.
    method Store(p: nat, t: string)
      requires p + |t| <= |mem|
      modifies this`mem
      ensures |mem| == |old(mem)| && mem[p..p + |t|] == t
      ensures mem[..p] == old(mem)[..p] && mem[p + |t|..] == old(mem)[p + |t|..]
    {
      mem := mem[..p] + t + mem[p + |t|..];
    }

    /** `evacuate_from_str_heaps`: every reference is moved, in order, to the new heap; one
        that does not fit becomes NULL. */
    method Evacuate(h: StrHeap) returns (h': StrHeap)
      requires h.Valid() && h.base + h.size <= |mem|
      requires forall i :: 0 <= i < |strs| && strs[i].At? ==> strs[i].ptr + strs[i].len <= h.base
      modifies this`mem, this`strs
      ensures |mem| == |old(mem)| && Moved(h', strs) == MoveAll(h, old(strs))
      ensures SameStrings(old(mem), old(strs), mem, strs) <==> TotalLen(old(strs)) <= h.FreeSize()
    {
      hide TotalLen, MoveAll, Text, Evacuated;
      h' := h;
      var i := 0;
      ghost var from, m0 := strs, mem;
      EvacuatedNone(h, from, m0);
      while i < |strs|
        invariant 0 <= i <= |from| == |strs| && |mem| == |m0| && h'.Valid() && h'.base == h.base && h'.size == h.size
        invariant Evacuated(h, from, m0, h', mem, strs, i)
      {
        EvacuatedNext(h, from, m0, h', mem, strs, i);
        if strs[i].At? {
          ghost var before, was, h0 := mem, strs, h';
          h' := MoveStr(h', i);
          EvacuatedStep(h, from, m0, h0, before, was, mem, i);
        }
        i := i + 1;
      }
      EvacuatedAll(h, from, m0, h', mem, strs);
      MoveKeepsAll(h, from);
    }

    /** `HDR_MOVE_STR` on a string that is not NULL. */
    method MoveStr(h: StrHeap, i: nat) returns (h': StrHeap)
      requires h.Valid() && h.base + h.size <= |mem|
      requires i < |strs| && strs[i].At? && strs[i].ptr + strs[i].len <= |mem|
      modifies this`mem, this`strs
      ensures |strs| == |old(strs)| && strs == old(strs)[i := strs[i]]
      ensures Alloc(h', strs[i]) == Allocate(h, old(strs[i]).len)
      ensures |mem| == |old(mem)| && mem[..h.FreeStart()] == old(mem)[..h.FreeStart()]
      ensures strs[i].At? ==> SameBytes(mem, strs[i].ptr, old(mem), old(strs[i]).ptr, old(strs[i]).len)
    {
      var a := Allocate(h, strs[i].len);
      if a.s.At? {
        Store(a.s.ptr, mem[strs[i].ptr..strs[i].ptr + strs[i].len]);
      }
      strs := strs[i := a.s];
      h' := a.heap;
    }

    // The size of all attached heaps together.
    method HeapsSize(incoming: nat) returns (size: nat)
      ensures size == incoming + (if rw.Heap? then rw.h.size else 0) + TotalSize(SlotRegions(ronly))
    {
      size := incoming;
      if rw.Heap? {
        size := size + rw.h.size;
      }
      var i := 0;
      ghost var base := size;
      assert ronly[..0] == [];
      while i < |ronly|
        invariant 0 <= i <= |ronly| && size == base + TotalSize(SlotRegions(ronly[..i]))
      {
        SlotStep(ronly, i);
        if ronly[i].Used? {
          size := size + ronly[i].len;
        }
        i := i + 1;
      }
      assert ronly[..i] == ronly;
    }

    /** `coalesce_str_heaps`: one new heap takes every string; unlocked slots are released. */
    method CoalesceStrHeaps(incoming: nat, ghost extra: seq<Region>)
      requires Holds(extra) && TotalSize(extra) <= incoming
      modifies this
      ensures Valid() && lost == 0 && rw.Heap? && ronly == Coalesce(old(ronly))
      ensures SameStrings(old(mem), old(strs), mem, strs)
      ensures |old(mem)| <= |mem| && rw.h.base > |old(mem)|
      ensures rw.h.used == TotalLen(old(strs))
      ensures rw.h.size >= STR_HEAP_HDR_SIZE + incoming + (if old(rw).Heap? then old(rw).h.size else 0)
                         + TotalSize(SlotRegions(old(ronly)))
    {
      var size := HeapsSize(incoming);
      hide TotalLen, TotalSize, SlotRegions, MoveAll, Text;
      RoomForAll(strs, rw, ronly, extra);
      ghost var from, m0 := strs, mem;
      var h0 := NewStrHeap(size);
      ghost var m1 := mem;
      var h := Evacuate(h0);
      MoveKeepsAll(h0, from);
      MovedApart(h0, from);
      KeepsText(m0, m1, from, mem, strs);
      lost := 0;
      rw := Heap(h);
      ReleaseSlots();
      AllInNewHeap(h0, from, rw, ronly);
    }

    // The last loop of `coalesce_str_heaps`.
    method ReleaseSlots()
      requires |ronly| == SLOTS
      modifies this`ronly
      ensures ronly == Coalesce(old(ronly))
    {
      var j := 0;
      while j < |ronly|
        invariant 0 <= j <= |ronly| == SLOTS
        invariant forall i :: 0 <= i < j ==> ronly[i] == if IsLocked(old(ronly)[i]) then old(ronly)[i] else Free
        invariant forall i :: j <= i < SLOTS ==> ronly[i] == old(ronly)[i]
      {
        if ronly[j].Used? && !ronly[j].locked {
          ronly := ronly[j := Free];
        }
        j := j + 1;
      }
    }

    /** `demote_rw_str_heap`. */
    method DemoteRwStrHeap() returns (ok: bool)
      requires Valid() && rw.Heap?
      modifies this`rw, this`ronly
      ensures Valid()
      ensures ok <==> exists i :: 0 <= i < SLOTS && old(ronly)[i].Free?
      ensures ok ==> rw == NoHeap
      ensures ok ==> ronly == Demote(old(ronly), old(rw).h.base, STR_HEAP_HDR_SIZE + old(rw).h.used)
      ensures ok ==> FilledFirstFree(old(ronly), Used(old(rw).h.base, STR_HEAP_HDR_SIZE + old(rw).h.used, false), ronly)
      ensures !ok ==> rw == old(rw) && ronly == old(ronly)
    {
      var i := 0;
      while i < |ronly|
        invariant 0 <= i <= |ronly| && ronly == old(ronly) && rw == old(rw)
        invariant forall j :: 0 <= j < i ==> ronly[j].Used?
      {
        if ronly[i].Free? {
          var s := Used(rw.h.base, rw.h.size - rw.h.FreeSize(), false);
          assert FirstFree(ronly, 0) == i && IsFirstFree(ronly, i);
          StillHomed(strs, rw, ronly, i, s);
          ronly := ronly[i := s];
          rw := NoHeap;
          return true;
        }
        i := i + 1;
      }
      ok := false;
    }

    // The front of the retry loop: make sure there is a read/write heap and take from it.
    method Attempt(n: nat, lastSize: nat) returns (s: Str)
      requires Valid()
      modifies this`mem, this`rw
      ensures Valid() && rw.Heap? && old(mem) <= mem
      ensures s.At? ==> s.len == n && Inside(s, Region(rw.h.base + STR_HEAP_HDR_SIZE, rw.h.used))
      ensures s.At? ==> forall i :: 0 <= i < |strs| ==> Apart(s, strs[i])
      ensures old(rw).NoHeap? ==> s.At? && rw.h.size >= 2 * lastSize
      ensures old(rw).Heap? ==> (s.At? <==> n <= old(rw).h.FreeSize()) && rw.h.size == old(rw).h.size
      ensures old(rw).Heap? && s.At? ==> s.ptr == old(rw).h.FreeStart()
      ensures s.Null? ==> rw == old(rw)
    {
      if rw.NoHeap? {
        var next := lastSize * 2 - STR_HEAP_HDR_SIZE;
        var h := NewStrHeap(if next > n then next else n);
        assert forall i :: 0 <= i < |strs| ==> Homed(strs[i], NoHeap, ronly, []) ==> Homed(strs[i], Heap(h), ronly, []);
        rw := Heap(h);
      }
      var a := Allocate(rw.h, n);
      FreeIsUnused(strs, rw, ronly, n);
      rw := Heap(a.heap);
      s := a.s;
    }

    /** `allocate_str`: at most three attempts when some slot is not locked, and the bytes
        handed out overlap no string. */
    method AllocateStr(n: nat) returns (s: Str, ghost tries: nat)
      requires Valid() && exists i :: 0 <= i < SLOTS && !IsLocked(ronly[i])
      modifies this
      ensures Valid() && SameStrings(old(mem), old(strs), mem, strs)
      ensures s.At? && s.len == n && rw.Heap? && Inside(s, Region(rw.h.base + STR_HEAP_HDR_SIZE, rw.h.used))
      ensures forall i :: 0 <= i < |strs| ==> Apart(s, strs[i])
      ensures tries <= 3 && lost <= MAX_LOST_STR_SPACE
      ensures old(Fits(n)) ==>
        s.ptr == old(rw).h.FreeStart() && strs == old(strs) && ronly == old(ronly) && tries == 1
      ensures old(Demotes(n)) ==> strs == old(strs) && rw.h.size >= 2 * old(rw).h.size && tries == 2
      ensures LocksKept(old(ronly), ronly)
    {
      hide Homed, AllApart, Text, SameStrings;
      tries := 0;
      var lastSize := 0;
      ghost var phase := 2;
      SameStringsSelf([]);
      if lost > MAX_LOST_STR_SPACE {
        CoalesceStrHeaps(0, []);
        phase := 1;
      }
      while true
        invariant Valid() && SameStrings(old(mem), old(strs), mem, strs)
        invariant LocksKept(old(ronly), ronly) && lost <= MAX_LOST_STR_SPACE
        invariant 0 <= phase <= 2 && tries + phase <= 2
        invariant phase == 2 ==> rw == old(rw) && ronly == old(ronly) && strs == old(strs) && tries == 0
        invariant old(Fits(n)) ==> phase == 2
        invariant old(Demotes(n)) ==> phase == 2 || (strs == old(strs) && phase == 0 && tries == 1 && lastSize == old(rw).h.size)
        invariant phase == 1 ==> exists i :: 0 <= i < SLOTS && ronly[i].Free?
        invariant phase == 0 ==> rw.NoHeap?
        decreases phase
      {
        ghost var m := mem;
        tries := tries + 1;
        s := Attempt(n, lastSize);
        MemoryGrew(old(mem), old(strs), m, mem, strs);
        if s.At? {
          return;
        }
        lastSize := rw.h.size;
        var demoted := DemoteRwStrHeap();
        if demoted {
          phase := 0;
        } else {
          m := mem;
          ghost var before := strs;
          CoalesceStrHeaps(0, []);
          SameStringsChain(old(mem), old(strs), m, before, mem, strs);
          phase := 1;
        }
      }
    }

    /** The read/write heap has the room, and no clean-up is due. */
    ghost predicate Fits(n: nat)
      reads this
      requires rw.Heap? ==> rw.h.Valid()
    {
      rw.Heap? && rw.h.FreeSize() >= n && lost <= MAX_LOST_STR_SPACE
    }

    /** It has not, but it can make way. */
    ghost predicate Demotes(n: nat)
      reads this
      requires rw.Heap? ==> rw.h.Valid()
    {
      rw.Heap? && rw.h.FreeSize() < n && lost <= MAX_LOST_STR_SPACE && exists i :: 0 <= i < |ronly| && ronly[i].Free?
    }

    lemma SameStringsSelf(extra: seq<Region>)
      requires Holds(extra)
      ensures SameStrings(mem, strs, mem, strs)
    {
    }

    /** `free_string`: the reference goes and its bytes count as lost. */
    method FreeString(i: nat)
      requires Valid() && i < |strs|
      modifies this`lost, this`strs
      ensures Valid() && strs == old(strs)[i := Null] && lost == old(lost) + Len(old(strs[i]))
    {
      if strs[i].At? && strs[i].len > 0 {
        lost := lost + strs[i].len;
      }
      strs := strs[i := Null];
    }

    /** `expand_str`: a string grows in place exactly when it is the last one of the
        read/write heap and the heap has the room; nobody else's bytes are taken. */
    method ExpandStr(i: nat, n: nat) returns (ok: bool)
      requires Valid() && i < |strs| && strs[i].At? && strs[i].len <= n
      modifies this`rw, this`strs
      ensures Valid() && strs == if ok then old(strs)[i := At(old(strs[i]).ptr, n)] else old(strs)
      ensures ok <==> (var s := old(strs[i]); old(rw).Heap? && var h := old(rw).h;
        h.base + STR_HEAP_HDR_SIZE <= s.ptr < h.base + h.size && s.ptr + s.len == h.FreeStart() && n - s.len <= h.FreeSize())
    {
      ok := false;
      if rw.Heap? && rw.h.base + STR_HEAP_HDR_SIZE <= strs[i].ptr < rw.h.base + rw.h.size {
        var more := n - strs[i].len;
        if strs[i].ptr + strs[i].len == rw.h.FreeStart() && more <= rw.h.FreeSize() {
          FreeIsUnused(strs, rw, ronly, more);
          GrownApart(strs, i, rw.h, n);
          rw := Heap(rw.h.(used := rw.h.used + more));
          strs := strs[i := At(strs[i].ptr, n)];
          ok := true;
        }
      }
    }

    /** `duplicate_str`: a copy of string `i` as a new string. */
    method DuplicateStr(i: nat)
      requires Valid() && i < |strs| && strs[i].At? && exists j :: 0 <= j < SLOTS && !IsLocked(ronly[j])
      modifies this
      ensures Valid() && |strs| == |old(strs)| + 1 && SameStrings(old(mem), old(strs), mem, strs[..|old(strs)|])
      ensures var k := |old(strs)|; strs[k].At? && Text(mem, strs[k]) == Text(old(mem), old(strs[i]))
    {
      ghost var m0, from := mem, strs;
      var t := mem[strs[i].ptr..strs[i].ptr + strs[i].len];
      var s, _ := AllocateStr(|t|);
      ghost var m := mem;
      Store(s.ptr, t);
      StoredApart(m0, from, m, mem, strs, s);
      strs := strs + [s];
      assert strs[..|from|] == strs[..|strs| - 1];
    }

    // One pass of `attach_block` over the slots.
    method FindSlot(b: Block) returns (i: nat)
      requires |ronly| == SLOTS
      ensures i == AttachPoint(ronly, b, 0)
    {
      i := 0;
      while i < |ronly| && ronly[i].Used? && ronly[i].start != b.buf
        invariant 0 <= i <= |ronly| && AttachPoint(ronly, b, i) == AttachPoint(ronly, b, 0)
      {
        i := i + 1;
      }
    }

    /** `attach_block`: the slot for an input block, after at most one coalesce. The block's
        end never moves back, as input buffers are written once. */
    method AttachBlock(b: Block) returns (i: nat)
      requires Valid() && BlockOk(b) && exists i :: 0 <= i < SLOTS && !IsLocked(ronly[i])
      requires forall j :: 0 <= j < SLOTS && ronly[j].Used? && ronly[j].start == b.buf ==> ronly[j].len <= b.end - b.buf
      modifies this
      ensures Valid() && SameStrings(old(mem), old(strs), mem, strs) && i < SLOTS
      ensures var ss := if NoPlace(old(ronly), b) then Coalesce(old(ronly)) else old(ronly);
        && i == AttachPoint(ss, b, 0) && ronly == Placed(ss, b, i)
        && (forall j :: 0 <= j < i ==> ss[j].Used? && ss[j].start != b.buf)
        && (ss[i].Free? ==> ronly[i] == Used(b.useStart, b.end - b.start, false))
        && (ss[i].Used? ==> ss[i].start == b.buf && ronly[i] == Used(b.buf, b.end - b.buf, ss[i].locked))
        && (forall j :: 0 <= j < SLOTS && j != i ==> ronly[j] == ss[j])
      ensures !NoPlace(old(ronly), b) ==> mem == old(mem) && strs == old(strs)
      ensures ronly[i].Used? && ronly[i].start <= b.useStart && b.end <= ronly[i].start + ronly[i].len
      ensures b.useStart <= b.end ==>
        forall s :: Inside(s, Region(b.useStart, b.end - b.useStart)) ==> Homed(s, rw, ronly, [])
    {
      hide AttachPoint, Text, Homed, AllApart;
      i := FindSlot(b);
      if i == SLOTS {
        CoalesceStrHeaps(0, []);
        i := FindSlot(b);
      }
      PlacedHomes(strs, rw, ronly, b, i);
      if ronly[i].Free? {
        ronly := ronly[i := Used(b.useStart, b.end - b.start, false)];
      } else {
        ronly := ronly[i := ronly[i].(len := b.end - b.buf)];
      }
      BlockIsHome(ronly, i, rw, b);
    }

    /** `unlock_ronly_str_heap`, with its loop over the slots below. */
    method UnlockSlot(i: nat)
      requires Valid() && i < SLOTS && ronly[i].Used?
      modifies this`ronly
      ensures Valid() && ronly == Unlock(old(ronly), i)
      ensures SlotUnlocked(old(ronly), i, ronly)
    {
      ghost var ss := ronly;
      ronly := ronly[i := ronly[i].(locked := false)];
      var j := 0;
      ghost var f := FirstFree(ss, 0);
      while j < i
        invariant 0 <= j <= i && |ronly| == SLOTS
        invariant ronly == if f < j then Unlock(ss, i) else ss[i := ss[i].(locked := false)]
      {
        if ronly[j].Free? {
          ronly := ronly[j := ronly[i]][i := Free];
        }
        j := j + 1;
      }
      UnlockHomes(strs, rw, ss, i);
      assert SlotMoved(ss, i, if f < i then f else i, ronly);
    }

    /** The end of a parsing bracket: `set_ronly_str_heap_end` cuts the slot where the parser
        stopped, behind its strings, and the slot is unlocked. */
    method EndBracket(i: nat, end: nat)
      requires Valid() && i < SLOTS && ronly[i].Used? && ronly[i].start <= end <= ronly[i].start + ronly[i].len
      requires forall k :: 0 <= k < |strs| && Inside(strs[k], Region(ronly[i].start, ronly[i].len)) ==>
        Inside(strs[k], Region(ronly[i].start, end - ronly[i].start))
      modifies this`ronly
      ensures Valid() && ronly == Unlock(old(ronly)[i := old(ronly)[i].(len := end - old(ronly)[i].start)], i)
      ensures SlotUnlocked(old(ronly)[i := old(ronly)[i].(len := end - old(ronly)[i].start)], i, ronly)
    {
      ghost var ss := ronly;
      ronly := ronly[i := ronly[i].(len := end - ronly[i].start)];
      forall k | 0 <= k < |strs|
        ensures Homed(strs[k], rw, ronly, [])
      {
        assert Homed(strs[k], rw, ss, []);
        if exists j :: 0 <= j < |ss| && ss[j].Used? && Inside(strs[k], Region(ss[j].start, ss[j].len)) {
          var j :| 0 <= j < |ss| && ss[j].Used? && Inside(strs[k], Region(ss[j].start, ss[j].len));
          assert Inside(strs[k], Region(ronly[j].start, ronly[j].len));
        }
      }
      UnlockSlot(i);
    }

    // Free slots and the first of them.
    method CountFree() returns (free: nat, first: nat)
      requires |ronly| == SLOTS
      ensures free == FreeCount(ronly) && first == FirstFree(ronly, 0)
    {
      free, first := 0, SLOTS;
      var i := 0;
      assert ronly[0..] == ronly;
      while i < |ronly|
        invariant 0 <= i <= |ronly| && free + FreeCount(ronly[i..]) == FreeCount(ronly)
        invariant if first == SLOTS then FirstFree(ronly, i) == FirstFree(ronly, 0) else first == FirstFree(ronly, 0)
      {
        assert ronly[i..][1..] == ronly[i + 1..];
        if ronly[i].Free? {
          if first == SLOTS {
            first := i;
          }
          free := free + 1;
        }
        i := i + 1;
      }
    }

    // The heaps another header brings and their size; the walk stops at a free slot.
    method CountIncoming() returns (n: nat, size: nat)
      requires |ronly| == SLOTS && Prefix(ronly)
      ensures n == (if rw.Heap? then 1 else 0) + Counted(ronly)
      ensures size == (if rw.Heap? then rw.h.size else 0) + TotalSize(SlotRegions(ronly))
    {
      n, size := 0, 0;
      if rw.Heap? {
        n, size := 1, rw.h.size;
      }
      ghost var n0, s0 := n, size;
      var i := 0;
      assert ronly[0..] == ronly && ronly[..0] == [];
      while i < |ronly| && ronly[i].Used?
        invariant 0 <= i <= |ronly| && n + Counted(ronly[i..]) == n0 + Counted(ronly)
        invariant size == s0 + TotalSize(SlotRegions(ronly[..i]))
      {
        assert ronly[i..][1..] == ronly[i + 1..];
        SlotStep(ronly, i);
        n, size := n + 1, size + ronly[i].len;
        i := i + 1;
      }
      RestIsFree(ronly, i);
    }

    /** `attach_str_heap`. */
    method AttachStrHeap(start: nat, len: nat, index: nat) returns (index': nat, ok: bool)
      requires |ronly| == SLOTS && index <= SLOTS
      modifies this`ronly
      ensures Attached(ronly, index', ok) == AttachStr(old(ronly), index, start, len)
    {
      var z := 0;
      while z < index
        invariant 0 <= z <= index && ronly == old(ronly) && Holder(ronly, start, index, z) == Holder(ronly, start, index, 0)
      {
        if ronly[z].Used? && ronly[z].start == start {
          if len > ronly[z].len {
            ronly := ronly[z := ronly[z].(len := len)];
          }
          return index, true;
        }
        z := z + 1;
      }
      if index >= SLOTS {
        return index, false;
      }
      ronly := ronly[index := Used(start, len, false)];
      return index + 1, true;
    }

    // The attaching branch of `inherit_string_heaps`.
    method AttachFrom(other: StringHeap, first: nat) returns (ok: bool)
      requires other != this && |ronly| == |other.ronly| == SLOTS && first <= SLOTS
      modifies this`ronly
      ensures var r := AttachMany(old(ronly), first, RwPart(other.rw) + UsedHeaps(other.ronly)); ronly == r.ss && ok == r.ok
    {
      hide AttachMany, UsedHeaps, Holder, AttachStr;
      ghost var target := AttachMany(ronly, first, RwPart(other.rw) + UsedHeaps(other.ronly));
      var index: nat := first;
      ok := true;
      if other.rw.Heap? {
        AttachFirst(ronly, index, RwPart(other.rw)[0], UsedHeaps(other.ronly));
        index, ok := AttachStrHeap(other.rw.h.base + STR_HEAP_HDR_SIZE, other.rw.h.used, index);
      }
      var i := 0;
      assert other.ronly[0..] == other.ronly && [] + UsedHeaps(other.ronly) == UsedHeaps(other.ronly);
      while i < |other.ronly|
        invariant 0 <= i <= |other.ronly| && |ronly| == SLOTS && index <= SLOTS
        invariant var r := AttachMany(ronly, index, UsedHeaps(other.ronly[i..])); r.ss == target.ss && (ok && r.ok) == target.ok
      {
        UsedHeapsStep(other.ronly, i);
        if other.ronly[i].Used? {
          AttachFirst(ronly, index, (other.ronly[i].start, other.ronly[i].len), UsedHeaps(other.ronly[i + 1..]));
          var done: bool;
          index, done := AttachStrHeap(other.ronly[i].start, other.ronly[i].len, index);
          ok := ok && done;
        }
        i := i + 1;
      }
      AttachNone(ronly, index, other.ronly[i..]);
    }

    /** `inherit_string_heaps`: whichever branch is taken, the asserts hold and every string,
        including those that lie in the other header's heaps, is kept. */
    method InheritStringHeaps(other: StringHeap) returns (ok: bool)
      requires other != this && |other.ronly| == SLOTS && Prefix(other.ronly) && (other.rw.Heap? ==> other.rw.h.Valid())
      requires Holds(Areas(other.rw, other.ronly)) && Prefix(ronly) && forall i :: 0 <= i < SLOTS ==> !IsLocked(ronly[i])
      modifies this
      ensures ok && Valid() && SameStrings(old(mem), old(strs), mem, strs)
      ensures ronly == Inherit(old(ronly), old(lost), Source(RwPart(other.rw), other.ronly, other.lost)).ss
      ensures lost <= MAX_LOST_STR_SPACE
      ensures if |RwPart(other.rw)| + |UsedHeaps(other.ronly)| <= SLOTS - FirstFree(old(ronly), 0)
                 && old(lost) + other.lost <= MAX_LOST_STR_SPACE
              then mem == old(mem) && strs == old(strs) && lost == old(lost) + other.lost else lost == 0
      ensures var heaps := RwPart(other.rw) + UsedHeaps(other.ronly);
        !MustCoalesce(old(ronly), old(lost), Source(RwPart(other.rw), other.ronly, other.lost)) ==>
          forall q, m, h :: IsLongest(old(ronly), q, m) && IsLongestOf(heaps, q, h) ==> IsLongest(ronly, q, Larger(m, h))
    {
      ghost var extra := Areas(other.rw, other.ronly);
      var free, first := CountFree();
      var n, size := other.CountIncoming();
      AreasSize(other.rw, other.ronly);
      PrefixCounts(ronly);
      PrefixCounts(other.ronly);
      if free < n || lost + other.lost > MAX_LOST_STR_SPACE {
        CoalesceStrHeaps(size, extra);
        ok := true;
      } else {
        ok := AdoptHeaps(other, first);
      }
    }

    // The branch that attaches.
    method AdoptHeaps(other: StringHeap, first: nat) returns (ok: bool)
      requires other != this && |other.ronly| == SLOTS && Prefix(other.ronly) && (other.rw.Heap? ==> other.rw.h.Valid())
      requires Holds(Areas(other.rw, other.ronly)) && Prefix(ronly) && forall i :: 0 <= i < SLOTS ==> !IsLocked(ronly[i])
      requires first == FirstFree(ronly, 0)
      requires !MustCoalesce(ronly, lost, Source(RwPart(other.rw), other.ronly, other.lost))
      modifies this`ronly, this`lost
      ensures ok && Valid() && lost == old(lost) + other.lost
      ensures ronly == AttachMany(old(ronly), first, RwPart(other.rw) + UsedHeaps(other.ronly)).ss
      ensures var heaps := RwPart(other.rw) + UsedHeaps(other.ronly);
        forall q, m, h :: IsLongest(old(ronly), q, m) && IsLongestOf(heaps, q, h) ==> IsLongest(ronly, q, Larger(m, h))
    {
      hide IsLongest, IsLongestOf, Homed, Text, AllApart;
      ghost var ss := ronly;
      InheritNeverFails(State(ronly, -1, lost), Source(RwPart(other.rw), other.ronly, other.lost));
      FilledIsPrefix(ronly);
      ok := AttachFrom(other, first);
      AttachedHomes(strs, rw, ss, first, other.rw, other.ronly);
      AttachedLongest(ss, first, RwPart(other.rw) + UsedHeaps(other.ronly));
      lost := lost + other.lost;
    }
  }

  // ------------------------------------------------------------------- proof steps

  /** No slot is free or holds the block already. */
  ghost predicate NoPlace(ss: seq<Slot>, b: Block) {
    forall j :: 0 <= j < |ss| ==> ss[j].Used? && ss[j].start != b.buf
  }

  ghost predicate IsFirstFree(ss: seq<Slot>, i: int) {
    0 <= i < |ss| && ss[i].Free? && forall j :: 0 <= j < i ==> ss[j].Used?
  }

  ghost predicate FilledFirstFree(ss: seq<Slot>, s: Slot, ss': seq<Slot>) {
    exists i :: IsFirstFree(ss, i) && ss' == ss[i := s]
  }

  ghost predicate SlotUnlocked(ss: seq<Slot>, i: int, ss': seq<Slot>) {
    exists f :: SlotMoved(ss, i, f, ss')
  }

  /** Slot `i` unlocked and moved to place `f`: the first free place below it, or its own. */
  ghost predicate SlotMoved(ss: seq<Slot>, i: int, f: int, ss': seq<Slot>) {
    && 0 <= f <= i < |ss| == |ss'| && ss[i].Used? && (f < i ==> IsFirstFree(ss, f))
    && (f == i ==> forall j :: 0 <= j < i ==> ss[j].Used?)
    && ss'[f] == ss[i].(locked := false) && (f < i ==> ss'[i].Free?)
    && forall j :: 0 <= j < |ss| && j != i && j != f ==> ss'[j] == ss[j]
  }

  /** A locked slot stays as it is. */
  ghost predicate LocksKept(ss: seq<Slot>, ss': seq<Slot>) {
    |ss'| == |ss| && forall i :: 0 <= i < |ss| && IsLocked(ss[i]) ==> ss'[i] == ss[i]
  }

  lemma MemoryGrew(m0: seq<char>, s0: seq<Str>, m: seq<char>, m': seq<char>, ss: seq<Str>)
    requires SameStrings(m0, s0, m, ss) && m <= m'
    ensures SameStrings(m0, s0, m', ss)
  {
    forall i | 0 <= i < |ss|
      ensures ss[i].At? ==> ss[i].ptr + ss[i].len <= |m'| && Text(m', ss[i]) == Text(m, ss[i])
    {
      if ss[i].At? {
        assert m' == m + m'[|m|..];
      }
    }
  }

  lemma SameStringsChain(m0: seq<char>, s0: seq<Str>, m1: seq<char>, s1: seq<Str>, m2: seq<char>, s2: seq<Str>)
    requires SameStrings(m0, s0, m1, s1) && SameStrings(m1, s1, m2, s2)
    ensures SameStrings(m0, s0, m2, s2)
  {
  }

  // The free part of the read/write heap overlaps no string, and using it keeps them placed.
  lemma FreeIsUnused(ss: seq<Str>, rw: MaybeHeap, slots: seq<Slot>, n: nat)
    requires rw.Heap? && rw.h.Valid()
    requires forall i :: 0 <= i < |ss| ==> Homed(ss[i], rw, slots, [])
    requires FreePartUnused(rw.h, ss)
    ensures FreePartUnused(Allocate(rw.h, n).heap, ss)
    ensures var a := Allocate(rw.h, n);
      forall i :: 0 <= i < |ss| ==> Homed(ss[i], Heap(a.heap), slots, []) && Apart(a.s, ss[i])
  {
    var a := Allocate(rw.h, n);
    forall i | 0 <= i < |ss|
      ensures Homed(ss[i], Heap(a.heap), slots, []) && Apart(a.s, ss[i])
    {
      assert Homed(ss[i], rw, slots, []);
    }
  }

  // A string that ends where the free part starts may grow into it.
  lemma GrownApart(ss: seq<Str>, i: nat, h: StrHeap, n: nat)
    requires AllApart(ss) && h.Valid() && FreePartUnused(h, ss) && i < |ss|
    requires ss[i].At? && ss[i].ptr + ss[i].len == h.FreeStart() && 0 <= n - ss[i].len <= h.FreeSize()
    ensures AllApart(ss[i := At(ss[i].ptr, n)])
  {
    var s := At(ss[i].ptr, n);
    forall j | 0 <= j < |ss| && j != i
      ensures Apart(s, ss[j]) && Apart(ss[j], s)
    {
      assert Apart(ss[i], ss[j]) by { assert i < j ==> Apart(ss[i], ss[j]); assert j < i ==> Apart(ss[j], ss[i]); }
      assert Apart(At(h.FreeStart(), h.FreeSize()), ss[j]);
    }
  }

  // Writing to a string apart from all others changes none of them.
  lemma StoredApart(m0: seq<char>, from: seq<Str>, m: seq<char>, m': seq<char>, ss: seq<Str>, s: Str)
    requires SameStrings(m0, from, m, ss) && s.At? && s.ptr + s.len <= |m| == |m'|
    requires forall i :: 0 <= i < |ss| ==> Apart(s, ss[i])
    requires m'[..s.ptr] == m[..s.ptr] && m'[s.ptr + s.len..] == m[s.ptr + s.len..]
    ensures SameStrings(m0, from, m', ss)
  {
    forall i | 0 <= i < |ss|
      ensures Text(m', ss[i]) == Text(m, ss[i])
    {
      if ss[i].At? {
        OneApart(m, m', ss[i], s);
      }
    }
  }

  lemma OneApart(m: seq<char>, m': seq<char>, r: Str, s: Str)
    requires s.At? && s.ptr + s.len <= |m| == |m'| && r.At? && r.ptr + r.len <= |m| && Apart(s, r)
    requires m'[..s.ptr] == m[..s.ptr] && m'[s.ptr + s.len..] == m[s.ptr + s.len..]
    ensures Text(m', r) == Text(m, r)
  {
    var a, b, e := r.ptr, r.ptr + r.len, s.ptr + s.len;
    if s.len == 0 {
      assert m == m[..s.ptr] + m[s.ptr..] == m';
    } else if a == b {
      assert m[a..b] == [] == m'[a..b];
    } else if b <= s.ptr {
      SlicePrefix(m, m', s.ptr, a, b);
    } else {
      assert m[a..b] == m[e..][a - e..b - e];
      assert m'[a..b] == m'[e..][a - e..b - e];
    }
  }

  // Placing a block keeps every string placed.
  lemma PlacedHomes(ss: seq<Str>, rw: MaybeHeap, slots: seq<Slot>, b: Block, i: nat)
    requires BlockOk(b) && i < |slots| && (slots[i].Used? ==> slots[i].start == b.buf && slots[i].len <= b.end - b.buf)
    requires forall k :: 0 <= k < |ss| ==> Homed(ss[k], rw, slots, [])
    ensures forall k :: 0 <= k < |ss| ==> Homed(ss[k], rw, Placed(slots, b, i), [])
  {
    var slots' := Placed(slots, b, i);
    forall k | 0 <= k < |ss|
      ensures Homed(ss[k], rw, slots', [])
    {
      assert Homed(ss[k], rw, slots, []);
      if exists j :: 0 <= j < |slots| && slots[j].Used? && Inside(ss[k], Region(slots[j].start, slots[j].len)) {
        var j :| 0 <= j < |slots| && slots[j].Used? && Inside(ss[k], Region(slots[j].start, slots[j].len));
        assert slots'[j].Used? && Inside(ss[k], Region(slots'[j].start, slots'[j].len));
      }
    }
  }

  // Strings in the used part of a block lie in the slot that covers it.
  lemma BlockIsHome(ss: seq<Slot>, i: nat, rw: MaybeHeap, b: Block)
    requires i < |ss| && ss[i].Used? && ss[i].start <= b.useStart && b.end <= ss[i].start + ss[i].len
    ensures b.useStart <= b.end ==> forall s :: Inside(s, Region(b.useStart, b.end - b.useStart)) ==> Homed(s, rw, ss, [])
  {
    if b.useStart <= b.end {
      forall s | Inside(s, Region(b.useStart, b.end - b.useStart))
        ensures Homed(s, rw, ss, [])
      {
        assert Inside(s, Region(ss[i].start, ss[i].len));
      }
    }
  }

  // Unlocking moves a slot, not the strings out of it.
  lemma UnlockHomes(ss: seq<Str>, rw: MaybeHeap, slots: seq<Slot>, i: nat)
    requires i < |slots| && slots[i].Used?
    requires forall k :: 0 <= k < |ss| ==> Homed(ss[k], rw, slots, [])
    ensures forall k :: 0 <= k < |ss| ==> Homed(ss[k], rw, Unlock(slots, i), [])
  {
    var slots', f := Unlock(slots, i), FirstFree(slots, 0);
    forall k | 0 <= k < |ss|
      ensures Homed(ss[k], rw, slots', [])
    {
      assert Homed(ss[k], rw, slots, []);
      if exists j :: 0 <= j < |slots| && slots[j].Used? && Inside(ss[k], Region(slots[j].start, slots[j].len)) {
        var j :| 0 <= j < |slots| && slots[j].Used? && Inside(ss[k], Region(slots[j].start, slots[j].len));
        var j' := if j == i && f < i then f else j;
        assert slots'[j'].Used? && Inside(ss[k], Region(slots'[j'].start, slots'[j'].len));
      }
    }
  }

  function RwPart(rw: MaybeHeap): (hs: seq<(nat, nat)>) {
    if rw.Heap? then [(rw.h.base + STR_HEAP_HDR_SIZE, rw.h.used)] else []
  }

  lemma UsedHeapsStep(ss: seq<Slot>, i: nat)
    requires i < |ss|
    ensures UsedHeaps(ss[i..]) ==
            if ss[i].Used? then [(ss[i].start, ss[i].len)] + UsedHeaps(ss[i + 1..]) else UsedHeaps(ss[i + 1..])
  {
    assert ss[i..][1..] == ss[i + 1..];
  }

  lemma AttachNone(ss: seq<Slot>, index: nat, none: seq<Slot>)
    requires index <= |ss| && none == []
    ensures AttachMany(ss, index, UsedHeaps(none)) == Attached(ss, index, true)
  {
  }

  lemma AttachFirst(ss: seq<Slot>, index: nat, h: (nat, nat), rest: seq<(nat, nat)>)
    requires index <= |ss|
    ensures var a := AttachStr(ss, index, h.0, h.1); var r := AttachMany(a.ss, a.index, rest);
      AttachMany(ss, index, [h] + rest) == r.(ok := a.ok && r.ok)
  {
    assert ([h] + rest)[1..] == rest;
  }

  // Behind the first free slot of a prefix nothing is left to add up.
  lemma {:induction false} RestIsFree(ss: seq<Slot>, i: nat)
    requires Prefix(ss) && i <= |ss| && (i < |ss| ==> ss[i].Free?)
    ensures SlotRegions(ss[..i]) == SlotRegions(ss) && Counted(ss[i..]) == 0
    decreases |ss|
  {
    if i < |ss| {
      var front := ss[..|ss| - 1];
      assert ss[|ss| - 1].Free?;
      assert front[..i] == ss[..i];
      RestIsFree(front, i);
    } else {
      assert ss[..i] == ss;
    }
  }

  lemma AreasSize(rw: MaybeHeap, ss: seq<Slot>)
    requires rw.Heap? ==> rw.h.Valid()
    ensures TotalSize(Areas(rw, ss)) <= (if rw.Heap? then rw.h.size else 0) + TotalSize(SlotRegions(ss))
  {
    if rw.Heap? {
      var r := [Region(rw.h.base + STR_HEAP_HDR_SIZE, rw.h.used)];
      TotalSizeConcat(r, SlotRegions(ss));
      assert r[..0] == [] && TotalSize(r) == rw.h.used;
    } else {
      assert Areas(rw, ss) == SlotRegions(ss);
    }
  }

  /** Some slot holds at least the heap's bytes. */
  ghost predicate Covered(start: nat, len: nat, ss: seq<Slot>) {
    exists k :: 0 <= k < |ss| && ss[k].Used? && ss[k].start == start && len <= ss[k].len
  }

  lemma AttachStrCovers(ss: seq<Slot>, index: nat, start: nat, len: nat)
    requires Filled(ss, index) && AttachStr(ss, index, start, len).ok
    ensures var a := AttachStr(ss, index, start, len);
      && Filled(a.ss, a.index) && Covered(start, len, a.ss)
      && forall k :: 0 <= k < |ss| && ss[k].Used? ==> Covered(ss[k].start, ss[k].len, a.ss)
  {
    var a := AttachStr(ss, index, start, len);
    var z := Holder(ss, start, index, 0);
    assert a.ss[z].Used? && a.ss[z].start == start && len <= a.ss[z].len;
    forall k | 0 <= k < |ss| && ss[k].Used?
      ensures Covered(ss[k].start, ss[k].len, a.ss)
    {
      assert a.ss[k].Used? && a.ss[k].start == ss[k].start && ss[k].len <= a.ss[k].len;
    }
  }

  /** Attaching without failure covers every heap, the old ones and the new ones. */
  lemma {:induction false} AttachManyCovers(ss: seq<Slot>, index: nat, heaps: seq<(nat, nat)>)
    requires Filled(ss, index) && AttachMany(ss, index, heaps).ok
    ensures var r := AttachMany(ss, index, heaps);
      && (forall i :: 0 <= i < |heaps| ==> Covered(heaps[i].0, heaps[i].1, r.ss))
      && forall k :: 0 <= k < |ss| && ss[k].Used? ==> Covered(ss[k].start, ss[k].len, r.ss)
    decreases |heaps|
  {
    if heaps == [] {
      assert forall k :: 0 <= k < |ss| && ss[k].Used? ==> Covered(ss[k].start, ss[k].len, ss);
    } else {
      var a, r := AttachStr(ss, index, heaps[0].0, heaps[0].1), AttachMany(ss, index, heaps);
      AttachStrCovers(ss, index, heaps[0].0, heaps[0].1);
      AttachManyCovers(a.ss, a.index, heaps[1..]);
      assert forall i :: 1 <= i < |heaps| ==> heaps[i] == heaps[1..][i - 1];
      CoveredChain(a.ss, r.ss, heaps[0].0, heaps[0].1);
      forall k | 0 <= k < |ss| && ss[k].Used?
        ensures Covered(ss[k].start, ss[k].len, r.ss)
      {
        CoveredChain(a.ss, r.ss, ss[k].start, ss[k].len);
      }
    }
  }

  lemma CoveredChain(ss: seq<Slot>, ss': seq<Slot>, start: nat, len: nat)
    requires Covered(start, len, ss)
    requires forall k :: 0 <= k < |ss| && ss[k].Used? ==> Covered(ss[k].start, ss[k].len, ss')
    ensures Covered(start, len, ss')
  {
  }

  lemma {:induction false} UsedHeapsIn(ss: seq<Slot>, i: nat)
    requires i < |ss| && ss[i].Used?
    ensures exists k :: 0 <= k < |UsedHeaps(ss)| && UsedHeaps(ss)[k] == (ss[i].start, ss[i].len)
  {
    var tail := UsedHeaps(ss[1..]);
    if i == 0 {
      assert UsedHeaps(ss)[0] == (ss[i].start, ss[i].len);
    } else {
      UsedHeapsIn(ss[1..], i - 1);
      var k :| 0 <= k < |tail| && tail[k] == (ss[i].start, ss[i].len);
      assert UsedHeaps(ss)[if ss[0].Used? then k + 1 else k] == tail[k];
    }
  }

  ghost predicate Among(r: Region, hs: seq<(nat, nat)>) {
    exists i :: 0 <= i < |hs| && hs[i] == (r.lo, r.len)
  }

  // Every region of the other header is one of the heaps attached.
  lemma AreasAreAttached(rw: MaybeHeap, ss: seq<Slot>, k: nat)
    requires k < |Areas(rw, ss)|
    ensures Among(Areas(rw, ss)[k], RwPart(rw) + UsedHeaps(ss))
  {
    var n := |RwPart(rw)|;
    var hs, r := RwPart(rw) + UsedHeaps(ss), Areas(rw, ss)[k];
    if k < n {
      assert hs[0] == (r.lo, r.len);
    } else {
      RegionsOfSlots(ss, k - n);
      var i :| 0 <= i < |ss| && ss[i].Used? && SlotRegions(ss)[k - n] == Region(ss[i].start, ss[i].len);
      UsedHeapsIn(ss, i);
      var j :| 0 <= j < |UsedHeaps(ss)| && UsedHeaps(ss)[j] == (ss[i].start, ss[i].len);
      assert hs[n + j] == (r.lo, r.len);
    }
  }

  // After attaching, the strings that lay in the other header's heaps lie in a slot.
  lemma AttachedHomes(strs: seq<Str>, rw: MaybeHeap, ss: seq<Slot>, index: nat, rw': MaybeHeap, ss': seq<Slot>)
    requires Filled(ss, index) && forall i :: 0 <= i < |strs| ==> Homed(strs[i], rw, ss, Areas(rw', ss'))
    requires AttachMany(ss, index, RwPart(rw') + UsedHeaps(ss')).ok
    ensures forall i :: 0 <= i < |strs| ==> Homed(strs[i], rw, AttachMany(ss, index, RwPart(rw') + UsedHeaps(ss')).ss, [])
  {
    hide AttachMany, UsedHeaps, SlotRegions;
    var hs, extra := RwPart(rw') + UsedHeaps(ss'), Areas(rw', ss');
    var r := AttachMany(ss, index, hs).ss;
    AttachManyCovers(ss, index, hs);
    forall i | 0 <= i < |strs|
      ensures Homed(strs[i], rw, r, [])
    {
      var s := strs[i];
      assert Homed(s, rw, ss, extra);
      if exists k :: 0 <= k < |ss| && ss[k].Used? && Inside(s, Region(ss[k].start, ss[k].len)) {
        var k :| 0 <= k < |ss| && ss[k].Used? && Inside(s, Region(ss[k].start, ss[k].len));
        InCovered(s, ss[k].start, ss[k].len, rw, r);
      } else if exists k :: 0 <= k < |extra| && Inside(s, extra[k]) {
        var k :| 0 <= k < |extra| && Inside(s, extra[k]);
        AreasAreAttached(rw', ss', k);
        InCovered(s, extra[k].lo, extra[k].len, rw, r);
      }
    }
  }

  lemma AttachedLongest(ss: seq<Slot>, index: nat, heaps: seq<(nat, nat)>)
    requires Filled(ss, index) && AttachMany(ss, index, heaps).ok
    ensures forall q, m, h :: IsLongest(ss, q, m) && IsLongestOf(heaps, q, h) ==>
      IsLongest(AttachMany(ss, index, heaps).ss, q, Larger(m, h))
  {
    forall q: nat, m, h | IsLongest(ss, q, m) && IsLongestOf(heaps, q, h)
      ensures IsLongest(AttachMany(ss, index, heaps).ss, q, Larger(m, h))
    {
      AttachManyLongest(ss, index, heaps, q, m, h);
    }
  }

  lemma InCovered(s: Str, start: nat, len: nat, rw: MaybeHeap, ss: seq<Slot>)
    requires Inside(s, Region(start, len)) && Covered(start, len, ss)
    ensures Homed(s, rw, ss, [])
  {
    var k :| 0 <= k < |ss| && ss[k].Used? && ss[k].start == start && len <= ss[k].len;
    assert Inside(s, Region(ss[k].start, ss[k].len));
  }

  // Demoting keeps every string placed.
  lemma StillHomed(ss: seq<Str>, rw: MaybeHeap, slots: seq<Slot>, i: nat, s: Slot)
    requires rw.Heap? && rw.h.Valid() && i < |slots| && slots[i].Free?
    requires s == Used(rw.h.base, STR_HEAP_HDR_SIZE + rw.h.used, false)
    requires forall j :: 0 <= j < |ss| ==> Homed(ss[j], rw, slots, [])
    ensures forall j :: 0 <= j < |ss| ==> Homed(ss[j], NoHeap, slots[i := s], [])
  {
    var slots' := slots[i := s];
    forall j | 0 <= j < |ss|
      ensures Homed(ss[j], NoHeap, slots', [])
    {
      assert Homed(ss[j], rw, slots, []);
      if ss[j].At? {
        if Inside(ss[j], Region(rw.h.base + STR_HEAP_HDR_SIZE, rw.h.used)) {
          assert slots'[i] == s && Inside(ss[j], Region(s.start, s.len));
        } else {
          var k :| 0 <= k < |slots| && slots[k].Used? && Inside(ss[j], Region(slots[k].start, slots[k].len));
          assert slots'[k] == slots[k];
        }
      }
    }
  }

  lemma AllInNewHeap(h: StrHeap, from: seq<Str>, rw: MaybeHeap, slots: seq<Slot>)
    requires h.Valid() && TotalLen(from) <= h.FreeSize() && rw == Heap(h.(used := h.used + TotalLen(from))) && h.used == 0
    ensures FreePartUnused(rw.h, MoveAll(h, from).ss)
    ensures forall i :: 0 <= i < |from| ==> Homed(MoveAll(h, from).ss[i], rw, slots, [])
  {
    MoveKeepsAll(h, from);
    forall i | 0 <= i < |from|
      ensures Homed(MoveAll(h, from).ss[i], rw, slots, [])
      ensures Apart(At(rw.h.FreeStart(), rw.h.FreeSize()), MoveAll(h, from).ss[i])
    {
      if from[i].At? {
        MovedPlaces(h, from, i);
      }
    }
  }

  // m1 extends m0 and the strings of m1 read back in m2: so do those of m0.
  lemma KeepsText(m0: seq<char>, m1: seq<char>, from: seq<Str>, m2: seq<char>, ss: seq<Str>)
    requires m0 <= m1 && InMemory(m0, from) && SameStrings(m1, from, m2, ss)
    ensures SameStrings(m0, from, m2, ss)
  {
    forall i | 0 <= i < |from|
      ensures Text(m1, from[i]) == Text(m0, from[i])
    {
      if from[i].At? {
        assert m1 == m0 + m1[|m0|..];
      }
    }
  }

  ghost predicate SameBytes(m: seq<char>, a: nat, m': seq<char>, b: nat, n: nat) {
    a + n <= |m| && b + n <= |m'| && m[a..a + n] == m'[b..b + n]
  }

  /** The first i strings have been moved, and those that fitted read back as before. */
  ghost predicate Evacuated(h: StrHeap, from: seq<Str>, m0: seq<char>, h': StrHeap, mem: seq<char>, ss: seq<Str>, i: nat)
    requires h.Valid()
  {
    && |mem| == |m0| && |ss| == |from| && i <= |from| && h.base <= h'.base + h'.used && h.base <= |m0|
    && mem[..h.base] == m0[..h.base]
    && Moved(h', ss[..i]) == MoveAll(h, from[..i])
    && (forall j :: i <= j < |from| ==> ss[j] == from[j])
    && (forall j :: 0 <= j < i && ss[j].At? ==>
          && from[j].At? && from[j].len == ss[j].len && ss[j].ptr + ss[j].len <= h'.FreeStart()
          && SameBytes(mem, ss[j].ptr, m0, from[j].ptr, from[j].len))
  }

  lemma EvacuatedNone(h: StrHeap, from: seq<Str>, m0: seq<char>)
    requires h.Valid() && h.base <= |m0|
    ensures Evacuated(h, from, m0, h, m0, from, 0)
  {
    assert from[..0] == [];
  }

  // What moving the first i + 1 strings does, from what moving the first i did.
  lemma MoveOneMore(h: StrHeap, from: seq<Str>, i: nat)
    requires h.Valid() && i < |from|
    ensures var m, m' := MoveAll(h, from[..i]), MoveAll(h, from[..i + 1]);
      m' == if from[i].Null? then Moved(m.heap, m.ss + [Null])
            else var a := Allocate(m.heap, from[i].len); Moved(a.heap, m.ss + [a.s])
  {
    assert from[..i + 1][..i] == from[..i];
  }

  lemma EvacuatedNext(h: StrHeap, from: seq<Str>, m0: seq<char>, h': StrHeap, mem: seq<char>, ss: seq<Str>, i: nat)
    requires h.Valid() && Evacuated(h, from, m0, h', mem, ss, i) && i < |from|
    ensures ss[i] == from[i] && (from[i].Null? ==> Evacuated(h, from, m0, h', mem, ss, i + 1))
  {
    hide MoveAll;
    MoveOneMore(h, from, i);
    assert ss[..i + 1] == ss[..i] + [ss[i]];
  }

  lemma EvacuatedStep(h: StrHeap, from: seq<Str>, m0: seq<char>, h': StrHeap, m: seq<char>, ss: seq<Str>, m': seq<char>, i: nat)
    requires h.Valid() && h'.Valid() && i < |from| && from[i].At? && from[i].ptr + from[i].len <= h.base
    requires Evacuated(h, from, m0, h', m, ss, i) && h'.base == h.base
    requires h'.FreeStart() <= |m| == |m'| && m'[..h'.FreeStart()] == m[..h'.FreeStart()]
    requires var a := Allocate(h', from[i].len);
      a.s.At? ==> SameBytes(m', a.s.ptr, m, from[i].ptr, from[i].len)
    ensures var a := Allocate(h', from[i].len); Evacuated(h, from, m0, a.heap, m', ss[i := a.s], i + 1)
  {
    hide MoveAll;
    var a := Allocate(h', from[i].len);
    var p, n, ss' := h'.FreeStart(), from[i].len, ss[i := a.s];
    MoveOneMore(h, from, i);
    assert ss'[..i + 1] == ss[..i] + [a.s];
    assert m'[..h.base] == m[..h.base] by { SlicePrefix(m, m', p, 0, h.base); }
    forall j | 0 <= j < i && ss[j].At?
      ensures SameBytes(m', ss[j].ptr, m0, from[j].ptr, from[j].len)
    {
      SlicePrefix(m, m', p, ss[j].ptr, ss[j].ptr + ss[j].len);
    }
    SlicePrefix(m, m0, h.base, from[i].ptr, from[i].ptr + n);
  }

  // Sequences that agree up to p agree on every slice below p.
  lemma SlicePrefix(m: seq<char>, m': seq<char>, p: nat, a: nat, b: nat)
    requires a <= b <= p <= |m| && p <= |m'| && m[..p] == m'[..p]
    ensures m[a..b] == m'[a..b]
  {
    assert m[a..b] == m[..p][a..b] && m'[a..b] == m'[..p][a..b];
  }

  lemma EvacuatedAll(h: StrHeap, from: seq<Str>, m0: seq<char>, h': StrHeap, mem: seq<char>, ss: seq<Str>)
    requires h.Valid() && Evacuated(h, from, m0, h', mem, ss, |from|) && InMemory(m0, from)
    ensures Moved(h', ss) == MoveAll(h, from)
    ensures SameStrings(m0, from, mem, ss) <==> NoneLost(from, ss)
  {
    hide MoveAll, Evacuated;
    EvacuatedSoFar(h, from, m0, h', mem, ss);
    if NoneLost(from, ss) {
      forall i | 0 <= i < |from| && ss[i].At?
        ensures Text(mem, ss[i]) == Text(m0, from[i])
      {
        assert SameBytes(mem, ss[i].ptr, m0, from[i].ptr, from[i].len);
      }
    }
  }

  lemma EvacuatedSoFar(h: StrHeap, from: seq<Str>, m0: seq<char>, h': StrHeap, mem: seq<char>, ss: seq<Str>)
    requires h.Valid() && Evacuated(h, from, m0, h', mem, ss, |from|)
    ensures |ss| == |from| && InMemory(mem, ss) && Moved(h', ss) == MoveAll(h, from)
    ensures forall i :: 0 <= i < |from| && ss[i].At? ==>
      from[i].At? && from[i].len == ss[i].len && SameBytes(mem, ss[i].ptr, m0, from[i].ptr, from[i].len)
  {
    hide MoveAll;
    assert ss[..|from|] == ss && from[..|from|] == from;
  }

  lemma SlotStep(ss: seq<Slot>, i: nat)
    requires i < |ss|
    ensures TotalSize(SlotRegions(ss[..i + 1])) ==
            TotalSize(SlotRegions(ss[..i])) + (if ss[i].Used? then ss[i].len else 0)
  {
    assert ss[..i + 1][..i] == ss[..i];
    if ss[i].Used? {
      var r := [Region(ss[i].start, ss[i].len)];
      TotalSizeConcat(SlotRegions(ss[..i]), r);
      assert r[..0] == [];
    } else {
      assert SlotRegions(ss[..i]) + [] == SlotRegions(ss[..i]);
    }
  }
}

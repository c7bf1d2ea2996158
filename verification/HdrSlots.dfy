module HdrSlots {
  // The three read-only string heap slots of a header heap as a state machine: demoting,
  // coalescing, attaching input blocks inside a lock bracket, and inheriting from another
  // heap. Order matters because inheriting counts free slots and then fills them one after
  // the other.

  const SLOTS := 3

  /** A slot is free or describes a read-only heap. */
  datatype Slot = Free | Used(start: nat, len: nat, locked: bool)

  predicate IsLocked(s: Slot) {
    s.Used? && s.locked
  }

  // ------------------------------------------------------------------ operations

  /** The first free slot, or SLOTS. */
  function FirstFree(ss: seq<Slot>, from: nat): (i: nat)
    requires from <= |ss|
    ensures from <= i <= |ss| && (i < |ss| ==> ss[i].Free?)
    ensures forall j :: from <= j < i ==> ss[j].Used?
    decreases |ss| - from
  {
    if from == |ss| || ss[from].Free? then from else FirstFree(ss, from + 1)
  }

  /** `demote_rw_str_heap`: the read/write heap moves to the first free slot, if any. */
  function Demote(ss: seq<Slot>, start: nat, len: nat): (ss': seq<Slot>) {
    var i := FirstFree(ss, 0);
    if i < |ss| then ss[i := Used(start, len, false)] else ss
  }

  /** The slot part of `coalesce_str_heaps`: every heap but a locked one is released. */
  function Coalesce(ss: seq<Slot>): (ss': seq<Slot>)
    ensures |ss'| == |ss|
    ensures forall i :: 0 <= i < |ss| ==> ss'[i] == if IsLocked(ss[i]) then ss[i] else Free
  {
    seq(|ss|, i requires 0 <= i < |ss| => if IsLocked(ss[i]) then ss[i] else Free)
  }

  /** An input block: its buffer, where its data starts and ends, and where its use starts. */
  datatype Block = Block(buf: nat, start: nat, end: nat, useStart: nat)

  predicate BlockOk(b: Block) {
    b.buf <= b.start <= b.end && b.start <= b.useStart
  }

  /** The slot `attach_block` stops at: the first that is free or already holds the block. */
  function AttachPoint(ss: seq<Slot>, b: Block, from: nat): (i: nat)
    requires from <= |ss|
    ensures from <= i <= |ss|
    ensures i < |ss| ==> ss[i].Free? || ss[i].start == b.buf
    ensures forall j :: from <= j < i ==> ss[j].Used? && ss[j].start != b.buf
    decreases |ss| - from
  {
    if from == |ss| || ss[from].Free? || ss[from].start == b.buf then from else AttachPoint(ss, b, from + 1)
  }

  function Placed(ss: seq<Slot>, b: Block, i: nat): (ss': seq<Slot>)
    requires i < |ss| && BlockOk(b)
  {
    if ss[i].Free? then ss[i := Used(b.useStart, b.end - b.start, false)]
    else ss[i := ss[i].(len := b.end - b.buf)]
  }

  /** `unlock_ronly_str_heap`: unlock slot `i` and move it to the first free slot below it. */
  function Unlock(ss: seq<Slot>, i: nat): (ss': seq<Slot>)
    requires i < |ss| && ss[i].Used?
    ensures |ss'| == |ss|
  {
    var s := ss[i].(locked := false);
    var j := FirstFree(ss, 0);
    if j < i then ss[j := s][i := Free] else ss[i := s]
  }

  // ------------------------------------------------------------------- inheriting

  datatype Attached = Attached(ss: seq<Slot>, index: nat, ok: bool)

  /** A slot below `index` that holds the heap at `start`, or `index`. */
  function Holder(ss: seq<Slot>, start: nat, index: nat, from: nat): (z: nat)
    requires from <= index <= |ss|
    ensures from <= z <= index && (z < index ==> ss[z].Used? && ss[z].start == start)
    decreases index - from
  {
    if from == index || (ss[from].Used? && ss[from].start == start) then from
    else Holder(ss, start, index, from + 1)
  }

  /** `attach_str_heap`: extend the slot that holds the heap, or fill slot `index`. */
  function AttachStr(ss: seq<Slot>, index: nat, start: nat, len: nat): (r: Attached)
    requires index <= |ss|
    ensures |r.ss| == |ss| && index <= r.index <= |ss|
  {
    var z := Holder(ss, start, index, 0);
    if z < index then
      Attached(if len > ss[z].len then ss[z := ss[z].(len := len)] else ss, index, true)
    else if index >= |ss| then Attached(ss, index, false)
    else Attached(ss[index := Used(start, len, false)], index + 1, true)
  }

  /** Attach a list of heaps one after the other; `ok` is the conjunction of the asserts. */
  function AttachMany(ss: seq<Slot>, index: nat, heaps: seq<(nat, nat)>): (r: Attached)
    requires index <= |ss|
    ensures |r.ss| == |ss| && index <= r.index <= |ss|
    decreases |heaps|
  {
    if heaps == [] then Attached(ss, index, true)
    else
      var a := AttachStr(ss, index, heaps[0].0, heaps[0].1);
      var r := AttachMany(a.ss, a.index, heaps[1..]);
      r.(ok := a.ok && r.ok)
  }

  /** The heaps another header heap holds: its read/write heap (0 or 1) and its slots. */
  datatype Source = Source(rw: seq<(nat, nat)>, ss: seq<Slot>, lost: nat)

  function UsedHeaps(ss: seq<Slot>): (hs: seq<(nat, nat)>) {
    if ss == [] then []
    else if ss[0].Used? then [(ss[0].start, ss[0].len)] + UsedHeaps(ss[1..])
    else UsedHeaps(ss[1..])
  }

  /** What the counting loop of `inherit_string_heaps` counts: it stops at a free slot. */
  function Counted(ss: seq<Slot>): (n: nat)
    ensures n <= |ss|
  {
    if ss == [] || ss[0].Free? then 0 else 1 + Counted(ss[1..])
  }

  function FreeCount(ss: seq<Slot>): (n: nat)
    ensures n <= |ss|
  {
    if ss == [] then 0 else (if ss[0].Free? then 1 else 0) + FreeCount(ss[1..])
  }

  const MAX_LOST_STR_SPACE := 1024

  predicate MustCoalesce(ss: seq<Slot>, lost: nat, from: Source) {
    FreeCount(ss) < |from.rw| + Counted(from.ss) || lost + from.lost > MAX_LOST_STR_SPACE
  }

  /** `inherit_string_heaps`: coalesce when there is too little room or too much lost space,
      attach otherwise. */
  function Inherit(ss: seq<Slot>, lost: nat, from: Source): (r: Attached)
    ensures |r.ss| == |ss|
  {
    if MustCoalesce(ss, lost, from) then Attached(Coalesce(ss), 0, true)
    else AttachMany(ss, FirstFree(ss, 0), from.rw + UsedHeaps(from.ss))
  }

  // ------------------------------------------------------------------ the invariant

  /** The used slots are the first ones. */
  ghost predicate Prefix(ss: seq<Slot>) {
    forall j, k :: 0 <= j < k < |ss| && ss[k].Used? ==> ss[j].Used?
  }

  /** Leaving slot `i` aside, the used slots are the first ones. */
  ghost predicate PrefixBut(ss: seq<Slot>, i: int) {
    forall j, k :: 0 <= j < k < |ss| && k != i && ss[k].Used? ==> ss[j].Used?
  }

  /** The slots and the slot that is locked, -1 for none. */
  datatype State = State(ss: seq<Slot>, lock: int, lost: nat)

  ghost predicate Inv(st: State) {
    && |st.ss| == SLOTS && -1 <= st.lock < SLOTS
    && (forall i :: 0 <= i < SLOTS ==> (IsLocked(st.ss[i]) <==> i == st.lock))
    && PrefixBut(st.ss, st.lock)
  }

  datatype Op =
    | MakeRoom(start: nat, len: nat)      // demote the read/write heap
    | Compact                             // coalesce all heaps
    | Begin(block: Block)                 // attach a block and lock its slot
    | Finish(len: nat)                    // shorten the locked heap and unlock it
    | Adopt(source: Source)               // inherit the heaps of another header heap
    | Lose(n: nat)                        // a string is freed

  /** Only one bracket at a time; nothing is inherited inside it; the other heap is in order. */
  ghost predicate Legal(st: State, op: Op)
    requires Inv(st)
  {
    match op
    case MakeRoom(_, _) => true
    case Compact => true
    case Begin(b) => st.lock == -1 && BlockOk(b)
    case Finish(e) => st.lock != -1 && e <= st.ss[st.lock].len
    case Adopt(src) => st.lock == -1 && |src.rw| <= 1 && |src.ss| == SLOTS && Prefix(src.ss)
    case Lose(_) => true
  }

  ghost function Apply(st: State, op: Op): (st': State)
    requires Inv(st) && Legal(st, op)
  {
    match op
    case MakeRoom(start, len) => st.(ss := Demote(st.ss, start, len))
    case Compact => st.(ss := Coalesce(st.ss), lost := 0)
    case Begin(b) =>
      var ss := if AttachPoint(st.ss, b, 0) == |st.ss| then Coalesce(st.ss) else st.ss;
      var i := AttachPoint(ss, b, 0);
      var placed := Placed(ss, b, i);
      State(placed[i := placed[i].(locked := true)], i, if ss == st.ss then st.lost else 0)
    case Finish(e) =>
      State(Unlock(st.ss[st.lock := st.ss[st.lock].(len := e)], st.lock), -1, st.lost)
    case Adopt(src) =>
      State(Inherit(st.ss, st.lost, src).ss, -1,
            if MustCoalesce(st.ss, st.lost, src) then 0 else st.lost + src.lost)
    case Lose(n) => st.(lost := st.lost + n)
  }

  // ---------------------------------------------------------------------- lemmas

  lemma {:induction false} PrefixCounts(ss: seq<Slot>)
    requires Prefix(ss)
    ensures FreeCount(ss) == |ss| - FirstFree(ss, 0)
    ensures Counted(ss) == |UsedHeaps(ss)|
  {
    if ss != [] {
      var tail := ss[1..];
      assert Prefix(tail) by {
        forall j, k | 0 <= j < k < |tail| && tail[k].Used?
          ensures tail[j].Used?
        {
          assert tail[j] == ss[j + 1] && tail[k] == ss[k + 1];
        }
      }
      PrefixCounts(tail);
      if ss[0].Free? {
        AllFree(tail, ss);
      } else {
        FirstFreeTail(ss, 1);
      }
    }
  }

  lemma {:induction false} FirstFreeTail(ss: seq<Slot>, from: nat)
    requires 1 <= from <= |ss|
    ensures FirstFree(ss, from) == 1 + FirstFree(ss[1..], from - 1)
    decreases |ss| - from
  {
    if from < |ss| {
      assert ss[1..][from - 1] == ss[from];
      FirstFreeTail(ss, from + 1);
    }
  }

  // After a free first slot a prefix holds nothing.
  lemma {:induction false} AllFree(tail: seq<Slot>, ss: seq<Slot>)
    requires ss != [] && Prefix(ss) && ss[0].Free? && tail == ss[1..]
    ensures FreeCount(tail) == |tail| && UsedHeaps(tail) == []
  {
    assert forall i :: 0 <= i < |tail| ==> tail[i] == ss[i + 1] && tail[i].Free?;
    NoneUsed(tail);
  }

  lemma {:induction false} NoneUsed(ss: seq<Slot>)
    requires forall i :: 0 <= i < |ss| ==> ss[i].Free?
    ensures FreeCount(ss) == |ss| && UsedHeaps(ss) == []
  {
    if ss != [] {
      NoneUsed(ss[1..]);
    }
  }

  // Attaching at the first free slot of a prefix keeps a prefix, locks nothing and never
  // fails while there is room for every heap.
  ghost predicate Filled(ss: seq<Slot>, index: nat) {
    && index <= |ss|
    && (forall i :: 0 <= i < index ==> ss[i].Used? && !ss[i].locked)
    && (forall i :: index <= i < |ss| ==> ss[i].Free?)
  }

  lemma {:induction false} AttachManyWorks(ss: seq<Slot>, index: nat, heaps: seq<(nat, nat)>)
    requires Filled(ss, index) && |heaps| <= |ss| - index
    ensures var r := AttachMany(ss, index, heaps); r.ok && Filled(r.ss, r.index)
    decreases |heaps|
  {
    if heaps != [] {
      var a := AttachStr(ss, index, heaps[0].0, heaps[0].1);
      AttachManyWorks(a.ss, a.index, heaps[1..]);
    }
  }

  /** The longest used slot of the heap at `start` has `m` bytes; -1 when there is none. */
  ghost predicate IsLongest(ss: seq<Slot>, start: nat, m: int) {
    && m >= -1
    && (forall k :: 0 <= k < |ss| && ss[k].Used? && ss[k].start == start ==> ss[k].len <= m)
    && (m >= 0 ==> exists k :: 0 <= k < |ss| && ss[k].Used? && ss[k].start == start && ss[k].len == m)
  }

  ghost predicate IsLongestOf(heaps: seq<(nat, nat)>, start: nat, m: int) {
    && m >= -1 && (forall k :: 0 <= k < |heaps| && heaps[k].0 == start ==> heaps[k].1 <= m)
    && (m >= 0 ==> exists k :: 0 <= k < |heaps| && heaps[k].0 == start && heaps[k].1 == m)
  }

  function Larger(a: int, b: int): (m: int) {
    if a < b then b else a
  }

  lemma AttachStrLongest(ss: seq<Slot>, index: nat, start: nat, len: nat, q: nat, m: int)
    requires Filled(ss, index) && AttachStr(ss, index, start, len).ok && IsLongest(ss, q, m)
    ensures IsLongest(AttachStr(ss, index, start, len).ss, q, if q == start then Larger(m, len) else m)
  {
    var a, z := AttachStr(ss, index, start, len), Holder(ss, start, index, 0);
    var m' := if q == start then Larger(m, len) else m;
    if m >= 0 {
      var k :| 0 <= k < |ss| && ss[k].Used? && ss[k].start == q && ss[k].len == m;
      assert a.ss[k].Used? && a.ss[k].start == q && a.ss[k].len >= m;
      assert k != z ==> a.ss[k].len == m;
    }
    assert z < |a.ss| && a.ss[z].Used? && a.ss[z].start == start && a.ss[z].len >= len;
  }

  /** Attaching registers every heap with its greatest length, the old and the new alike,
      and nothing else. */
  lemma {:induction false} AttachManyLongest(ss: seq<Slot>, index: nat, heaps: seq<(nat, nat)>, q: nat, m: int, h: int)
    requires Filled(ss, index) && AttachMany(ss, index, heaps).ok
    requires IsLongest(ss, q, m) && IsLongestOf(heaps, q, h)
    ensures IsLongest(AttachMany(ss, index, heaps).ss, q, Larger(m, h))
    decreases |heaps|
  {
    assert m >= -1;
    hide IsLongest;
    if heaps == [] {
      assert h == -1;
    } else {
      var first, rest := heaps[0], heaps[1..];
      var a := AttachStr(ss, index, first.0, first.1);
      AttachStrLongest(ss, index, first.0, first.1, q, m);
      assert Filled(a.ss, a.index);
      var h' := LongestRest(heaps, q, h);
      AttachManyLongest(a.ss, a.index, rest, q, if q == first.0 then Larger(m, first.1) else m, h');
    }
  }

  // The longest among the heaps behind the first.
  lemma LongestRest(heaps: seq<(nat, nat)>, q: nat, h: int) returns (h': int)
    requires heaps != [] && IsLongestOf(heaps, q, h)
    ensures IsLongestOf(heaps[1..], q, h') && h == if q == heaps[0].0 then Larger(heaps[0].1, h') else h'
  {
    var rest := heaps[1..];
    h' := LongestIn(rest, q);
    if h >= 0 {
      var k :| 0 <= k < |heaps| && heaps[k].0 == q && heaps[k].1 == h;
      if k > 0 {
        assert rest[k - 1] == heaps[k];
      }
    }
    if h' >= 0 {
      var k :| 0 <= k < |rest| && rest[k].0 == q && rest[k].1 == h';
      assert heaps[k + 1] == rest[k];
    }
  }

  lemma {:induction false} LongestIn(heaps: seq<(nat, nat)>, q: nat) returns (h: int)
    ensures IsLongestOf(heaps, q, h)
    decreases |heaps|
  {
    if heaps == [] {
      h := -1;
    } else {
      var n := |heaps| - 1;
      var front := heaps[..n];
      var h0 := LongestIn(front, q);
      h := if heaps[n].0 == q then Larger(h0, heaps[n].1) else h0;
      if h0 >= 0 {
        var k :| 0 <= k < |front| && front[k].0 == q && front[k].1 == h0;
        assert heaps[k] == front[k];
      }
      assert forall k :: 0 <= k < n ==> heaps[k] == front[k];
    }
  }

  lemma FilledIsPrefix(ss: seq<Slot>)
    requires Prefix(ss) && forall i :: 0 <= i < |ss| ==> !IsLocked(ss[i])
    ensures Filled(ss, FirstFree(ss, 0))
  {
    var f := FirstFree(ss, 0);
    forall i | f <= i < |ss|
      ensures ss[i].Free?
    {
      assert !(f < i && ss[i].Used?);
    }
  }

  /** In every reachable state with no lock the asserts of `inherit_string_heaps` hold. */
  lemma InheritNeverFails(st: State, src: Source)
    requires Inv(st) && Legal(st, Adopt(src))
    ensures Inherit(st.ss, st.lost, src).ok
    ensures Inv(Apply(st, Adopt(src)))
  {
    assert Prefix(st.ss);
    PrefixCounts(st.ss);
    PrefixCounts(src.ss);
    FilledIsPrefix(st.ss);
    var heaps := src.rw + UsedHeaps(src.ss);
    if |heaps| <= |st.ss| - FirstFree(st.ss, 0) {
      AttachManyWorks(st.ss, FirstFree(st.ss, 0), heaps);
    }
  }

  /** Every legal step keeps the slots in order. */
  lemma StepKeepsInv(st: State, op: Op)
    requires Inv(st) && Legal(st, op)
    ensures Inv(Apply(st, op))
  {
    match op
    case Adopt(src) => InheritNeverFails(st, src);
    case Begin(b) =>
    case _ =>
  }

  /** Inside the bracket the locked slot keeps its index and its heap. */
  lemma LockedSlotStays(st: State, op: Op)
    requires Inv(st) && Legal(st, op) && st.lock != -1 && !op.Finish?
    ensures Apply(st, op).lock == st.lock && Apply(st, op).ss[st.lock] == st.ss[st.lock]
  {
  }

  // ------------------------------------------------------------------------ runs

  ghost predicate LegalRun(st: State, ops: seq<Op>)
    requires Inv(st)
    decreases |ops|
  {
    |ops| == 0 ||
    (Legal(st, ops[0]) && (StepKeepsInv(st, ops[0]); LegalRun(Apply(st, ops[0]), ops[1..])))
  }

  ghost function Run(st: State, ops: seq<Op>): (st': State)
    requires Inv(st) && LegalRun(st, ops)
    ensures Inv(st')
    decreases |ops|
  {
    if |ops| == 0 then st else StepKeepsInv(st, ops[0]); Run(Apply(st, ops[0]), ops[1..])
  }

  /** Over every run: the used slots form a prefix whenever none is locked, inheriting
      never fails there, and a bracket keeps its slot and heap until it is finished. */
  lemma {:induction false} EveryRun(st: State, ops: seq<Op>, src: Source)
    requires Inv(st) && LegalRun(st, ops)
    requires |src.rw| <= 1 && |src.ss| == SLOTS && Prefix(src.ss)
    ensures var e := Run(st, ops);
      && (e.lock == -1 ==> Prefix(e.ss) && Inherit(e.ss, e.lost, src).ok)
      && (st.lock != -1 && (forall op :: op in ops ==> !op.Finish?) ==>
            e.lock == st.lock && e.ss[st.lock] == st.ss[st.lock])
    decreases |ops|
  {
    if |ops| == 0 {
      if st.lock == -1 {
        InheritNeverFails(st, src);
      }
    } else {
      StepKeepsInv(st, ops[0]);
      EveryRun(Apply(st, ops[0]), ops[1..], src);
      if st.lock != -1 && forall op :: op in ops ==> !op.Finish? {
        assert ops[0] in ops;
        LockedSlotStays(st, ops[0]);
        assert forall op :: op in ops[1..] ==> op in ops;
      }
    }
  }

  lemma FreshInv()
    ensures Inv(State([Free, Free, Free], -1, 0))
  {
  }
}

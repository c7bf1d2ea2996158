module HdrStrings {
  // Strings in memory: references, the heaps they lie in, bump allocation, and why all
  // strings of a header fit into one new heap when the heaps are coalesced.

  /** Size of the header at the front of a string heap. */
  const STR_HEAP_HDR_SIZE := 32
  const STR_HEAP_DEFAULT_SIZE := 2048

  /** A string reference: NULL or an address and a length. */
  datatype Str = Null | At(ptr: nat, len: nat)

  /** A stretch of memory. */
  datatype Region = Region(lo: nat, len: nat)

  predicate Inside(s: Str, r: Region) {
    s.At? ==> r.lo <= s.ptr && s.ptr + s.len <= r.lo + r.len
  }

  predicate Apart(a: Str, b: Str) {
    a.Null? || b.Null? || a.len == 0 || b.len == 0 || a.ptr + a.len <= b.ptr || b.ptr + b.len <= a.ptr
  }

  ghost predicate AllApart(ss: seq<Str>) {
    forall i, j :: 0 <= i < j < |ss| ==> Apart(ss[i], ss[j])
  }

  ghost predicate InOne(s: Str, rs: seq<Region>) {
    exists k :: 0 <= k < |rs| && Inside(s, rs[k])
  }

  ghost predicate AllInside(ss: seq<Str>, rs: seq<Region>) {
    forall i :: 0 <= i < |ss| ==> InOne(ss[i], rs)
  }

  function Len(s: Str): (n: nat) {
    if s.Null? then 0 else s.len
  }

  function TotalLen(ss: seq<Str>): (n: nat) {
    if |ss| == 0 then 0 else TotalLen(ss[..|ss| - 1]) + Len(ss[|ss| - 1])
  }

  function TotalSize(rs: seq<Region>): (n: nat) {
    if |rs| == 0 then 0 else TotalSize(rs[..|rs| - 1]) + rs[|rs| - 1].len
  }

  // -------------------------------------------- disjoint strings fit their regions

  ghost function Cells(lo: int, n: nat): (c: set<int>)
    ensures forall a :: a in c <==> lo <= a < lo + n
    ensures |c| == n
  {
    if n == 0 then {} else Cells(lo, n - 1) + {lo + n - 1}
  }

  ghost function StrCells(ss: seq<Str>): (c: set<int>) {
    if |ss| == 0 then {}
    else StrCells(ss[..|ss| - 1]) + OneStr(ss[|ss| - 1])
  }

  ghost function OneStr(s: Str): (c: set<int>) {
    if s.Null? then {} else Cells(s.ptr, s.len)
  }

  ghost function RegionCells(rs: seq<Region>): (c: set<int>) {
    if |rs| == 0 then {}
    else RegionCells(rs[..|rs| - 1]) + Cells(rs[|rs| - 1].lo, rs[|rs| - 1].len)
  }

  lemma {:induction false} InStrCells(ss: seq<Str>, a: int)
    ensures a in StrCells(ss) <==> exists i :: 0 <= i < |ss| && a in OneStr(ss[i])
  {
    hide OneStr;
    if |ss| > 0 {
      var front := ss[..|ss| - 1];
      InStrCells(front, a);
      if exists i :: 0 <= i < |ss| && a in OneStr(ss[i]) {
        var i :| 0 <= i < |ss| && a in OneStr(ss[i]);
        if i < |ss| - 1 { assert front[i] == ss[i]; }
      }
      if a in StrCells(front) {
        var i :| 0 <= i < |front| && a in OneStr(front[i]);
        assert ss[i] == front[i];
      }
    }
  }

  lemma {:induction false} RegionHolds(rs: seq<Region>, k: nat, a: int)
    requires k < |rs| && a in Cells(rs[k].lo, rs[k].len)
    ensures a in RegionCells(rs)
  {
    if k < |rs| - 1 {
      RegionHolds(rs[..|rs| - 1], k, a);
    }
  }

  lemma ApartCells(ss: seq<Str>, last: Str)
    requires forall i :: 0 <= i < |ss| ==> Apart(ss[i], last)
    ensures StrCells(ss) !! OneStr(last)
  {
    hide StrCells, Cells;
    forall a | a in StrCells(ss)
      ensures a !in OneStr(last)
    {
      InStrCells(ss, a);
      var i :| 0 <= i < |ss| && a in OneStr(ss[i]);
      assert Apart(ss[i], last);
    }
  }

  lemma {:induction false} StrCellCount(ss: seq<Str>)
    requires AllApart(ss)
    ensures |StrCells(ss)| == TotalLen(ss)
  {
    hide Cells;
    if |ss| > 0 {
      var n := |ss| - 1;
      var front := ss[..n];
      assert AllApart(front) && forall i :: 0 <= i < n ==> front[i] == ss[i] && Apart(ss[i], ss[n]);
      StrCellCount(front);
      ApartCells(front, ss[n]);
    }
  }

  lemma {:induction false} RegionCellCount(rs: seq<Region>)
    ensures |RegionCells(rs)| <= TotalSize(rs)
  {
    if |rs| > 0 {
      var n := |rs| - 1;
      RegionCellCount(rs[..n]);
      UnionSize(RegionCells(rs[..n]), Cells(rs[n].lo, rs[n].len));
    }
  }

  lemma UnionSize(a: set<int>, b: set<int>)
    ensures |a + b| <= |a| + |b|
  {
    assert a + b == a + (b - a) && a !! (b - a);
    SubsetSize(b - a, b);
  }

  lemma SubsetSize(a: set<int>, b: set<int>)
    requires a <= b
    ensures |a| <= |b|
  {
    assert b == a + (b - a) && a !! (b - a);
  }

  /** Pairwise disjoint strings that lie in some regions need no more room than the regions. */
  lemma StringsFit(ss: seq<Str>, rs: seq<Region>)
    requires AllApart(ss) && AllInside(ss, rs)
    ensures TotalLen(ss) <= TotalSize(rs)
  {
    StrCellCount(ss);
    RegionCellCount(rs);
    forall a | a in StrCells(ss)
      ensures a in RegionCells(rs)
    {
      InStrCells(ss, a);
      var i :| 0 <= i < |ss| && a in OneStr(ss[i]);
      var k :| 0 <= k < |rs| && Inside(ss[i], rs[k]);
      RegionHolds(rs, k, a);
    }
    SubsetSize(StrCells(ss), RegionCells(rs));
  }

  // ------------------------------------------------------------------ string heaps

  /** A string heap: its address, its whole size, and the bytes handed out so far. */
  datatype StrHeap = StrHeap(base: nat, size: nat, used: nat)
  {
    predicate Valid() { STR_HEAP_HDR_SIZE + used <= size }
    function FreeStart(): (a: nat) { base + STR_HEAP_HDR_SIZE + used }
    function FreeSize(): (n: nat) requires Valid() { size - STR_HEAP_HDR_SIZE - used }
  }

  function Round(x: nat, unit: nat): (y: nat)
    requires unit > 0
    ensures x <= y
  {
    (x + unit - 1) / unit * unit
  }

  /** The size `new_HdrStrHeap` allocates. */
  function NewHeapSize(requested: nat): (size: nat)
    ensures size >= requested + STR_HEAP_HDR_SIZE
  {
    var n := requested + STR_HEAP_HDR_SIZE;
    if n <= STR_HEAP_DEFAULT_SIZE then STR_HEAP_DEFAULT_SIZE else Round(n, 2 * STR_HEAP_DEFAULT_SIZE)
  }

  /** The default size when that is enough, and otherwise the next multiple of twice that. */
  lemma NewHeapSizeIs(requested: nat)
    ensures var n, r := requested + STR_HEAP_HDR_SIZE, NewHeapSize(requested);
      if n <= 2048 then r == 2048 else n <= r < n + 4096 && r % 4096 == 0
  {
    var n := requested + STR_HEAP_HDR_SIZE;
    assert (n + 4095) / 4096 * 4096 % 4096 == 0;
  }

  datatype Alloc = Alloc(heap: StrHeap, s: Str)

  /** `HdrStrHeap::allocate`; NULL when there is no room. */
  function Allocate(h: StrHeap, n: nat): (a: Alloc)
    requires h.Valid()
    ensures a.heap.Valid()
  {
    if h.FreeSize() >= n then Alloc(h.(used := h.used + n), At(h.FreeStart(), n)) else Alloc(h, Null)
  }

  datatype Moved = Moved(heap: StrHeap, ss: seq<Str>)

  /** The new references when every string is moved to heap `h` in order. */
  function MoveAll(h: StrHeap, ss: seq<Str>): (m: Moved)
    requires h.Valid()
    ensures m.heap.Valid() && |m.ss| == |ss|
  {
    if |ss| == 0 then Moved(h, [])
    else
      var m := MoveAll(h, ss[..|ss| - 1]);
      var s := ss[|ss| - 1];
      if s.Null? then m.(ss := m.ss + [Null])
      else var a := Allocate(m.heap, s.len); Moved(a.heap, m.ss + [a.s])
  }

  ghost predicate NoneLost(ss: seq<Str>, ss': seq<Str>) {
    |ss'| == |ss| && forall i :: 0 <= i < |ss| ==> (ss'[i].Null? <==> ss[i].Null?)
  }

  /** Moving keeps every string exactly when their lengths together fit: that is the whole
      condition, and `StringsFit` is why it holds for strings that do not overlap. */
  lemma {:induction false} MoveKeepsAll(h: StrHeap, ss: seq<Str>)
    requires h.Valid()
    ensures NoneLost(ss, MoveAll(h, ss).ss) <==> TotalLen(ss) <= h.FreeSize()
    ensures TotalLen(ss) <= h.FreeSize() ==> MoveAll(h, ss).heap == h.(used := h.used + TotalLen(ss))
  {
    if |ss| > 0 {
      var n := |ss| - 1;
      MoveKeepsAll(h, ss[..n]);
      var m, m' := MoveAll(h, ss[..n]), MoveAll(h, ss);
      assert forall i :: 0 <= i < n ==> m'.ss[i] == m.ss[i] && ss[..n][i] == ss[i];
      if NoneLost(ss, m'.ss) {
        assert NoneLost(ss[..n], m.ss);
      }
      if NoneLost(ss[..n], m.ss) {
        assert forall i :: 0 <= i < n ==> (m'.ss[i].Null? <==> ss[i].Null?);
      }
    }
  }

  /** Two references to the same 3000 bytes cannot both be moved: without disjointness a
      string is lost, although each lies in the one attached heap. */
  lemma SharedStringsAreLost()
    ensures var ss := [At(100, 3000), At(100, 3000)]; var size := NewHeapSize(3000);
      && AllInside(ss, [Region(100, 3000)]) && !AllApart(ss)
      && !NoneLost(ss, MoveAll(StrHeap(5000, size, 0), ss).ss)
  {
    var s := At(100, 3000);
    var ss := [s, s];
    var h := StrHeap(5000, NewHeapSize(3000), 0);
    assert Inside(s, [Region(100, 3000)][0]);
    assert h.size == 4096;
    assert !Apart(ss[0], ss[1]);
    assert ss[..1] == [s] && [s][..0] == [];
    assert TotalLen([]) == 0 && TotalLen([s]) == 3000 && TotalLen(ss) == 6000;
    MoveKeepsAll(h, ss);
  }

  /** Where the strings go: one after the other, so they end up apart and inside the heap. */
  lemma {:induction false} MovedPlaces(h: StrHeap, ss: seq<Str>, i: nat)
    requires h.Valid() && TotalLen(ss) <= h.FreeSize() && i < |ss| && ss[i].At?
    ensures MoveAll(h, ss).ss[i] == At(h.FreeStart() + TotalLen(ss[..i]), ss[i].len)
    ensures TotalLen(ss[..i]) + ss[i].len <= TotalLen(ss)
  {
    var n := |ss| - 1;
    MoveKeepsAll(h, ss[..n]);
    if i < n {
      MovedPlaces(h, ss[..n], i);
      assert ss[..n][..i] == ss[..i];
    }
  }

  lemma {:induction false} TotalLenMonotone(ss: seq<Str>, i: nat, j: nat)
    requires i < j <= |ss|
    ensures TotalLen(ss[..i]) + Len(ss[i]) <= TotalLen(ss[..j])
    decreases j
  {
    assert ss[..j][..j - 1] == ss[..j - 1];
    if i < j - 1 {
      TotalLenMonotone(ss, i, j - 1);
    }
  }

  lemma MovedApart(h: StrHeap, ss: seq<Str>)
    requires h.Valid() && TotalLen(ss) <= h.FreeSize()
    ensures AllApart(MoveAll(h, ss).ss)
  {
    var ss' := MoveAll(h, ss).ss;
    MoveKeepsAll(h, ss);
    forall i, j | 0 <= i < j < |ss|
      ensures Apart(ss'[i], ss'[j])
    {
      if ss[i].At? && ss[j].At? {
        MovedPlaces(h, ss, i);
        MovedPlaces(h, ss, j);
        TotalLenMonotone(ss, i, j);
      }
    }
  }
}

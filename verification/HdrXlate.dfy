module HdrXlate {
  // Pointer translation for marshalling: several stretches of memory are copied one behind
  // the other, and an address is translated by the first stretch whose range, end included,
  // contains it.

  import opened HdrStrings

  function End(r: Region): (e: nat) {
    r.lo + r.len
  }

  /** The closed range test of the translation macros. */
  predicate Hits(r: Region, p: nat) {
    r.lo <= p <= End(r)
  }

  /** The first region from `i` on that is hit, or |rs|. */
  function FirstHit(rs: seq<Region>, p: nat, i: nat): (k: nat)
    requires i <= |rs|
    ensures i <= k <= |rs| && (k < |rs| ==> Hits(rs[k], p))
    ensures forall j :: i <= j < k ==> !Hits(rs[j], p)
    decreases |rs| - i
  {
    if i == |rs| || Hits(rs[i], p) then i else FirstHit(rs, p, i + 1)
  }

  /** Where the bytes of region `k` go when the copies start at `at`. */
  function CopyAt(rs: seq<Region>, at: nat, k: nat): (a: nat)
    requires k <= |rs|
    ensures a >= at
  {
    at + TotalSize(rs[..k])
  }

  predicate Found(rs: seq<Region>, p: nat) {
    p == 0 || FirstHit(rs, p, 0) < |rs|
  }

  /** The translated pointer; NULL stays NULL. */
  function Translate(rs: seq<Region>, at: nat, p: nat): (q: nat)
    requires Found(rs, p)
    ensures at > 0 ==> (q == 0 <==> p == 0)
  {
    if p == 0 then 0 else var k := FirstHit(rs, p, 0); CopyAt(rs, at, k) + (p - rs[k].lo)
  }

  /** No byte belongs to two regions. */
  ghost predicate Disjoint(rs: seq<Region>) {
    forall i, k :: 0 <= i < |rs| && 0 <= k < |rs| && i != k ==> NoShare(rs[i], rs[k])
  }

  predicate NoShare(a: Region, b: Region) {
    a.len == 0 || b.len == 0 || End(a) <= b.lo || End(b) <= a.lo
  }

  /** Where a region starts, no earlier region ends, unless the copies touch there too. */
  ghost predicate Separated(rs: seq<Region>) {
    forall i, k :: 0 <= i < k < |rs| ==> NoFalseHit(rs, i, k)
  }

  ghost predicate NoFalseHit(rs: seq<Region>, i: nat, k: nat)
    requires i < k < |rs|
  {
    rs[k].lo <= End(rs[i]) < End(rs[k]) ==>
      End(rs[i]) == rs[k].lo && TotalSize(rs[..i + 1]) == TotalSize(rs[..k])
  }

  predicate Within(p: nat, n: nat, r: Region) {
    r.lo <= p && p + n <= End(r)
  }

  /** Every address of every region is translated to its own copy. */
  ghost predicate Exact(rs: seq<Region>) {
    forall k, p :: 0 <= k < |rs| && Within(p, 1, rs[k]) && p > 0 ==> ExactAt(rs, k, p)
  }

  ghost predicate ExactAt(rs: seq<Region>, k: nat, p: nat)
    requires k < |rs|
  {
    Found(rs, p) && forall at: nat :: Translate(rs, at, p) == CopyAt(rs, at, k) + p - rs[k].lo
  }

  lemma {:induction false} TotalSizeMonotone(rs: seq<Region>, i: nat, k: nat)
    requires i <= k <= |rs|
    ensures TotalSize(rs[..i]) <= TotalSize(rs[..k]) <= TotalSize(rs)
    decreases |rs| - i
  {
    if i < k {
      TotalSizeStep(rs, i);
      TotalSizeMonotone(rs, i + 1, k);
    } else if k < |rs| {
      TotalSizeStep(rs, k);
      TotalSizeMonotone(rs, k + 1, |rs|);
    }
    assert rs[..|rs|] == rs;
  }

  lemma TotalSizeStep(rs: seq<Region>, i: nat)
    requires i < |rs|
    ensures TotalSize(rs[..i + 1]) == TotalSize(rs[..i]) + rs[i].len
  {
    assert rs[..i + 1][..i] == rs[..i];
  }

  lemma FirstHitBefore(rs: seq<Region>, p: nat, k: nat)
    requires k < |rs| && Hits(rs[k], p)
    ensures FirstHit(rs, p, 0) <= k
  {
  }

  lemma SeparatedIsExact(rs: seq<Region>, k: nat, p: nat)
    requires Disjoint(rs) && Separated(rs) && k < |rs| && Within(p, 1, rs[k]) && p > 0
    ensures ExactAt(rs, k, p)
  {
    hide TotalSize;
    FirstHitBefore(rs, p, k);
    var m := FirstHit(rs, p, 0);
    if m < k {
      assert NoShare(rs[m], rs[k]) && NoFalseHit(rs, m, k);
      TotalSizeStep(rs, m);
    }
  }

  lemma ExactIsSeparated(rs: seq<Region>, i: nat, k: nat)
    requires Disjoint(rs) && Exact(rs) && i < k < |rs| && End(rs[i]) > 0
    ensures NoFalseHit(rs, i, k)
  {
    hide TotalSize;
    var p := End(rs[i]);
    if rs[k].lo <= p < End(rs[k]) {
      FirstHitBefore(rs, p, i);
      var m := FirstHit(rs, p, 0);
      assert Within(p, 1, rs[k]) && ExactAt(rs, k, p);
      assert NoShare(rs[m], rs[k]);
      assert Translate(rs, 0, p) == CopyAt(rs, 0, k) + p - rs[k].lo;
      TotalSizeStep(rs, m);
      TotalSizeMonotone(rs, m + 1, i + 1);
      TotalSizeMonotone(rs, i + 1, k);
    }
  }

  /** The closed range test translates every address correctly exactly when no region ends
      where a later one starts (unless only empty regions lie between them in the table). */
  lemma ExactIffSeparated(rs: seq<Region>)
    requires Disjoint(rs) && forall i :: 0 <= i < |rs| ==> rs[i].lo > 0
    ensures Exact(rs) <==> Separated(rs)
  {
    if Separated(rs) {
      forall k, p | 0 <= k < |rs| && Within(p, 1, rs[k]) && p > 0
        ensures ExactAt(rs, k, p)
      {
        SeparatedIsExact(rs, k, p);
      }
    }
    if Exact(rs) {
      forall i, k | 0 <= i < k < |rs|
        ensures NoFalseHit(rs, i, k)
      {
        ExactIsSeparated(rs, i, k);
      }
    }
  }

  /** Heaps a byte or more apart satisfy the condition. */
  lemma GapsSeparate(rs: seq<Region>)
    requires forall i, k :: 0 <= i < |rs| && 0 <= k < |rs| && i != k ==> End(rs[i]) < rs[k].lo || End(rs[k]) < rs[i].lo
    ensures Disjoint(rs) && Separated(rs)
  {
    forall i, k | 0 <= i < |rs| && 0 <= k < |rs| && i != k
      ensures NoShare(rs[i], rs[k]) && (i < k ==> NoFalseHit(rs, i, k))
    {
      assert End(rs[i]) < rs[k].lo || End(rs[k]) < rs[i].lo;
    }
  }

  // ---------------------------------------------------------------- what copies hold

  ghost predicate AllInMemory(mem: seq<char>, rs: seq<Region>) {
    forall i :: 0 <= i < |rs| ==> rs[i].lo + rs[i].len <= |mem|
  }

  /** The copied bytes of all regions, one behind the other. */
  ghost function Copied(mem: seq<char>, rs: seq<Region>): (t: string)
    requires AllInMemory(mem, rs)
    ensures |t| == TotalSize(rs)
  {
    if |rs| == 0 then []
    else Copied(mem, rs[..|rs| - 1]) + mem[rs[|rs| - 1].lo..End(rs[|rs| - 1])]
  }

  lemma {:induction false} CopiedPart(mem: seq<char>, rs: seq<Region>, k: nat)
    requires k < |rs| && AllInMemory(mem, rs)
    ensures TotalSize(rs[..k]) + rs[k].len <= TotalSize(rs)
    ensures var a := TotalSize(rs[..k]); Copied(mem, rs)[a..a + rs[k].len] == mem[rs[k].lo..End(rs[k])]
  {
    var n := |rs| - 1;
    var a := TotalSize(rs[..k]);
    if k < n {
      CopiedPart(mem, rs[..n], k);
      assert rs[..n][..k] == rs[..k];
      assert Copied(mem, rs)[a..a + rs[k].len] == Copied(mem, rs[..n])[a..a + rs[k].len];
    }
  }

  /** A string inside a region reads the same at the translated place. */
  lemma TranslatedText(mem: seq<char>, rs: seq<Region>, k: nat, p: nat, n: nat)
    requires Disjoint(rs) && Separated(rs) && k < |rs| && Within(p, n, rs[k]) && p > 0
    requires AllInMemory(mem, rs)
    ensures Found(rs, p)
    ensures var q := Translate(rs, 0, p); q + n <= TotalSize(rs) && Copied(mem, rs)[q..q + n] == mem[p..p + n]
  {
    hide TotalSize, Copied, Translate, Separated, Disjoint;
    if n == 0 {
      FirstHitBefore(rs, p, k);
      EmptyTextFits(rs, p);
    } else {
      SeparatedIsExact(rs, k, p);
      CopiedPart(mem, rs, k);
      var a, q := TotalSize(rs[..k]), Translate(rs, 0, p);
      assert q == CopyAt(rs, 0, k) + p - rs[k].lo;
      var d := p - rs[k].lo;
      var c := Copied(mem, rs);
      SubSlice(c, a, a + rs[k].len, d, d + n);
      SubSlice(mem, rs[k].lo, End(rs[k]), d, d + n);
    }
  }

  lemma SubSlice(s: seq<char>, a: nat, b: nat, c: nat, d: nat)
    requires a <= b <= |s| && c <= d <= b - a
    ensures s[a..b][c..d] == s[a + c..a + d]
  {
    var x, y := s[a..b][c..d], s[a + c..a + d];
    assert |x| == |y| && forall i :: 0 <= i < |x| ==> x[i] == s[a + c + i] == y[i];
  }

  lemma EmptyTextFits(rs: seq<Region>, p: nat)
    requires Found(rs, p) && p > 0
    ensures Translate(rs, 0, p) <= TotalSize(rs)
  {
    var m := FirstHit(rs, p, 0);
    TotalSizeStep(rs, m);
    TotalSizeMonotone(rs, m + 1, |rs|);
  }

  lemma TranslateShift(rs: seq<Region>, at: nat, p: nat)
    requires Found(rs, p) && p > 0
    ensures Translate(rs, at, p) == at + Translate(rs, 0, p)
  {
  }

  /** Two heaps that touch, with a third between them in the table: a string at the start
      of the last one is read back from the third. */
  lemma TouchingHeapsMisread(mem: seq<char>)
    requires mem == "--AABB--CC"
    ensures var rs := [Region(2, 2), Region(8, 2), Region(4, 2)];
      && Disjoint(rs) && !Separated(rs) && Within(4, 2, rs[2]) && mem[4..6] == "BB"
      && Found(rs, 4) && Translate(rs, 0, 4) == 2 && Copied(mem, rs)[2..4] == "CC"
  {
    var rs := [Region(2, 2), Region(8, 2), Region(4, 2)];
    assert rs[..0] == [];
    TotalSizeStep(rs, 0);
    TotalSizeStep(rs, 1);
    assert !NoFalseHit(rs, 0, 2);
    CopiedPart(mem, rs, 1);
    hide TotalSize, Copied;
    assert mem[8..10] == "CC" && mem[4..6] == "BB";
  }
}

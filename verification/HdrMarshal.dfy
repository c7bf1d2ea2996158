module HdrMarshal {
  // Marshalling a header heap: the objects of all its pointer heaps and the bytes of all its
  // string heaps are copied into one buffer, pointers become offsets, and unmarshalling at
  // any address turns the offsets back into pointers.

  import opened HdrStrings
  import opened HdrXlate
  import HdrSlots
  import HdrHeap

  const HDR_HEAP_HDR_SIZE := 136
  const HDR_PTR_SIZE := 8

  // ---------------------------------------------------------------------- objects

  /** A string reference in an object; address 0 is NULL. */
  datatype StrRef = StrRef(ptr: nat, len: nat)

  datatype Readiness = Unused | Deleted | Detached | Live

  datatype Field = Field(readiness: Readiness, name: StrRef, value: StrRef, nextDup: nat)

  datatype FieldBlock = FieldBlock(next: nat, freetop: nat, fields: seq<Field>)

  datatype Body =
    | Url(strs: seq<StrRef>)                   // scheme, user, password, host, port, path, params, query, fragment
    | Block(block: FieldBlock)
    | Mime(tail: nat, first: FieldBlock)
    | Empty
    | Raw

  datatype Obj = Obj(length: nat, body: Body)

  /** A pointer heap: objects one behind the other from `dataStart`. */
  datatype PtrHeap = PtrHeap(dataStart: nat, objs: seq<Obj>)

  datatype Hdr = Hdr(heaps: seq<PtrHeap>, rw: HdrHeap.MaybeHeap, ronly: seq<HdrSlots.Slot>, mem: seq<char>)

  function SizeOf(objs: seq<Obj>): (n: nat) {
    if |objs| == 0 then 0 else SizeOf(objs[..|objs| - 1]) + objs[|objs| - 1].length
  }

  function RegionOf(h: PtrHeap): (r: Region) {
    Region(h.dataStart, SizeOf(h.objs))
  }

  function Regions(heaps: seq<PtrHeap>): (rs: seq<Region>)
    ensures |rs| == |heaps| && forall i :: 0 <= i < |rs| ==> rs[i] == RegionOf(heaps[i])
  {
    seq(|heaps|, i requires 0 <= i < |heaps| => RegionOf(heaps[i]))
  }

  /** All objects in the order they are copied. */
  function Flat(heaps: seq<PtrHeap>): (objs: seq<Obj>) {
    if |heaps| == 0 then [] else Flat(heaps[..|heaps| - 1]) + heaps[|heaps| - 1].objs
  }

  function Strings(h: Hdr): (rs: seq<Region>) {
    HdrHeap.Areas(h.rw, h.ronly)
  }

  // ---------------------------------------------------------- translating an object

  /** The two translation tables. */
  datatype Tables = Tables(ptrs: seq<Region>, strs: seq<Region>)
  {
    function StrAt(): (a: nat) { HDR_HEAP_HDR_SIZE + TotalSize(ptrs) }
  }

  function TablesOf(h: Hdr): (x: Tables) {
    Tables(Regions(h.heaps), Strings(h))
  }

  predicate StrFound(x: Tables, s: StrRef) {
    Found(x.strs, s.ptr)
  }

  function StrOut(x: Tables, s: StrRef): (s': StrRef)
    requires StrFound(x, s)
  {
    StrRef(Translate(x.strs, x.StrAt(), s.ptr), s.len)
  }

  function PtrOut(x: Tables, p: nat): (p': nat)
    requires Found(x.ptrs, p)
  {
    Translate(x.ptrs, HDR_HEAP_HDR_SIZE, p)
  }

  predicate FieldFound(x: Tables, f: Field) {
    f.readiness.Live? ==> StrFound(x, f.name) && StrFound(x, f.value) && Found(x.ptrs, f.nextDup)
  }

  /** Only live fields are translated. */
  function FieldOut(x: Tables, f: Field): (f': Field)
    requires FieldFound(x, f)
  {
    if f.readiness.Live? then Field(Live, StrOut(x, f.name), StrOut(x, f.value), PtrOut(x, f.nextDup)) else f
  }

  predicate BlockFound(x: Tables, b: FieldBlock) {
    Found(x.ptrs, b.next) && forall i :: 0 <= i < |b.fields| && i < b.freetop ==> FieldFound(x, b.fields[i])
  }

  function BlockOut(x: Tables, b: FieldBlock): (b': FieldBlock)
    requires BlockFound(x, b)
    ensures |b'.fields| == |b.fields|
  {
    FieldBlock(PtrOut(x, b.next), b.freetop,
      seq(|b.fields|, i requires 0 <= i < |b.fields| => if i < b.freetop then FieldOut(x, b.fields[i]) else b.fields[i]))
  }

  predicate BodyFound(x: Tables, o: Body) {
    match o
    case Url(ss) => forall i :: 0 <= i < |ss| ==> StrFound(x, ss[i])
    case Block(b) => BlockFound(x, b)
    case Mime(tail, b) => Found(x.ptrs, tail) && BlockFound(x, b)
    case Empty => true
    case Raw => true
  }

  function BodyOut(x: Tables, o: Body): (o': Body)
    requires BodyFound(x, o)
  {
    match o
    case Url(ss) => Url(seq(|ss|, i requires 0 <= i < |ss| => StrOut(x, ss[i])))
    case Block(b) => Block(BlockOut(x, b))
    case Mime(tail, b) => Mime(PtrOut(x, tail), BlockOut(x, b))
    case Empty => Empty
    case Raw => Raw
  }

  // ------------------------------------------------------------------- unmarshalling

  function Shift(p: nat, base: nat): (q: nat) {
    if p == 0 then 0 else p + base
  }

  function StrIn(s: StrRef, base: nat): (s': StrRef) {
    StrRef(Shift(s.ptr, base), s.len)
  }

  function FieldIn(f: Field, base: nat): (f': Field) {
    if f.readiness.Live? then Field(Live, StrIn(f.name, base), StrIn(f.value, base), Shift(f.nextDup, base)) else f
  }

  function BlockIn(b: FieldBlock, base: nat): (b': FieldBlock)
    ensures |b'.fields| == |b.fields|
  {
    FieldBlock(Shift(b.next, base), b.freetop,
      seq(|b.fields|, i requires 0 <= i < |b.fields| => if i < b.freetop then FieldIn(b.fields[i], base) else b.fields[i]))
  }

  function BodyIn(o: Body, base: nat): (o': Body) {
    match o
    case Url(ss) => Url(seq(|ss|, i requires 0 <= i < |ss| => StrIn(ss[i], base)))
    case Block(b) => Block(BlockIn(b, base))
    case Mime(tail, b) => Mime(Shift(tail, base), BlockIn(b, base))
    case Empty => Empty
    case Raw => Raw
  }

  // ------------------------------------------------------------- what must be kept

  /** Two references hold the same text, or both are NULL. */
  ghost predicate SameText(mem: seq<char>, s: StrRef, mem': seq<char>, s': StrRef) {
    && s'.len == s.len && (s.ptr == 0 <==> s'.ptr == 0)
    && (s.ptr != 0 ==> HdrHeap.SameBytes(mem, s.ptr, mem', s'.ptr, s.len))
  }

  /** Address `p` is byte `d` of object `j` of pointer heap `k`. */
  ghost predicate Denotes(heaps: seq<PtrHeap>, p: nat, k: nat, j: nat, d: nat) {
    && k < |heaps| && j < |heaps[k].objs| && d < heaps[k].objs[j].length
    && p == heaps[k].dataStart + SizeOf(heaps[k].objs[..j]) + d
  }

  /** The position of heap `k`'s first object among all objects. */
  function Before(heaps: seq<PtrHeap>, k: nat): (n: nat)
    requires k <= |heaps|
  {
    |Flat(heaps[..k])|
  }

  /** `p'` in the one new heap denotes the same object, at the same place, as `p` did. */
  ghost predicate SamePlace(heaps: seq<PtrHeap>, p: nat, new': PtrHeap, p': nat) {
    && (p == 0 <==> p' == 0)
    && forall k, j, d :: p != 0 && Denotes(heaps, p, k, j, d) ==> Denotes([new'], p', 0, Before(heaps, k) + j, d)
  }

  ghost predicate SameField(h: Hdr, f: Field, new': PtrHeap, mem': seq<char>, f': Field) {
    if f.readiness.Live? then
      && f'.readiness.Live? && SameText(h.mem, f.name, mem', f'.name) && SameText(h.mem, f.value, mem', f'.value)
      && SamePlace(h.heaps, f.nextDup, new', f'.nextDup)
    else f' == f
  }

  ghost predicate SameBlock(h: Hdr, b: FieldBlock, new': PtrHeap, mem': seq<char>, b': FieldBlock) {
    && SamePlace(h.heaps, b.next, new', b'.next) && b'.freetop == b.freetop && |b'.fields| == |b.fields|
    && (forall i :: 0 <= i < |b.fields| && i < b.freetop ==> SameField(h, b.fields[i], new', mem', b'.fields[i]))
    && (forall i :: b.freetop <= i < |b.fields| ==> b'.fields[i] == b.fields[i])
  }

  ghost predicate SameBody(h: Hdr, o: Body, new': PtrHeap, mem': seq<char>, o': Body) {
    match o
    case Url(ss) => o'.Url? && |o'.strs| == |ss| && forall i :: 0 <= i < |ss| ==> SameText(h.mem, ss[i], mem', o'.strs[i])
    case Block(b) => o'.Block? && SameBlock(h, b, new', mem', o'.block)
    case Mime(tail, b) => o'.Mime? && SamePlace(h.heaps, tail, new', o'.tail) && SameBlock(h, b, new', mem', o'.first)
    case Empty => o'.Empty?
    case Raw => o'.Raw?
  }

  // --------------------------------------------------------------- well-formedness

  ghost predicate StrOk(h: Hdr, s: StrRef) {
    s.ptr == 0 || exists k :: 0 <= k < |Strings(h)| && Within(s.ptr, s.len, Strings(h)[k])
  }

  ghost predicate PtrOk(h: Hdr, p: nat) {
    p == 0 || exists k, j, d :: Denotes(h.heaps, p, k, j, d)
  }

  ghost predicate BlockOk(h: Hdr, b: FieldBlock) {
    && PtrOk(h, b.next)
    && forall i :: 0 <= i < |b.fields| && i < b.freetop && b.fields[i].readiness.Live? ==>
         StrOk(h, b.fields[i].name) && StrOk(h, b.fields[i].value) && PtrOk(h, b.fields[i].nextDup)
  }

  ghost predicate BodyOk(h: Hdr, o: Body) {
    match o
    case Url(ss) => forall i :: 0 <= i < |ss| ==> StrOk(h, ss[i])
    case Block(b) => BlockOk(h, b)
    case Mime(tail, b) => PtrOk(h, tail) && BlockOk(h, b)
    case Empty => true
    case Raw => true
  }

  /** Pointer heaps carry a header in front of their data, so their data never touch. The
      string heaps do not overlap, and none ends where a later one starts. */
  ghost predicate Sound(h: Hdr) {
    && |h.heaps| > 0 && |h.ronly| == HdrSlots.SLOTS
    && (forall i, k :: 0 <= i < |h.heaps| && 0 <= k < |h.heaps| && i != k ==>
          Gap(RegionOf(h.heaps[i]), RegionOf(h.heaps[k])) || Gap(RegionOf(h.heaps[k]), RegionOf(h.heaps[i])))
    && Disjoint(Strings(h)) && Separated(Strings(h)) && AllInMemory(h.mem, Strings(h))
  }

  predicate Gap(a: Region, b: Region) {
    End(a) + HDR_HEAP_HDR_SIZE <= b.lo
  }

  /** Every live reference of every object is NULL or points to something. */
  ghost predicate WellFormed(h: Hdr) {
    Sound(h) && forall i :: 0 <= i < |Flat(h.heaps)| ==> BodyOk(h, Flat(h.heaps)[i].body)
  }

  // --------------------------------------------------------------- sizes and places

  lemma {:induction false} SizeOfConcat(a: seq<Obj>, b: seq<Obj>)
    ensures SizeOf(a + b) == SizeOf(a) + SizeOf(b)
    decreases |b|
  {
    if |b| == 0 {
      assert a + b == a;
    } else {
      assert (a + b)[..|a + b| - 1] == a + b[..|b| - 1];
      SizeOfConcat(a, b[..|b| - 1]);
    }
  }

  lemma {:induction false} FlatSize(heaps: seq<PtrHeap>)
    ensures SizeOf(Flat(heaps)) == TotalSize(Regions(heaps))
  {
    if |heaps| > 0 {
      var n := |heaps| - 1;
      FlatSize(heaps[..n]);
      assert Regions(heaps)[..n] == Regions(heaps[..n]);
      SizeOfConcat(Flat(heaps[..n]), heaps[n].objs);
    }
  }

  lemma {:induction false} FlatPart(heaps: seq<PtrHeap>, k: nat)
    requires k < |heaps|
    ensures Before(heaps, k) + |heaps[k].objs| <= |Flat(heaps)|
    ensures Flat(heaps)[..Before(heaps, k)] == Flat(heaps[..k])
    ensures Flat(heaps)[Before(heaps, k)..Before(heaps, k) + |heaps[k].objs|] == heaps[k].objs
    decreases |heaps|
  {
    var n := |heaps| - 1;
    if k < n {
      FlatPart(heaps[..n], k);
      assert heaps[..n][..k] == heaps[..k];
    }
  }

  /** Where an object ends up among the copies. */
  lemma {:induction false} CopyOfObject(heaps: seq<PtrHeap>, k: nat, j: nat)
    requires k < |heaps| && j < |heaps[k].objs|
    ensures var n := Before(heaps, k) + j; var all := Flat(heaps);
      n < |all| && all[n] == heaps[k].objs[j] && SizeOf(all[..n]) == TotalSize(Regions(heaps)[..k]) + SizeOf(heaps[k].objs[..j])
  {
    hide TotalSize, SizeOf, Flat;
    var b, all, objs := Before(heaps, k), Flat(heaps), heaps[k].objs;
    FlatPart(heaps, k);
    assert all[b + j] == all[b..b + |objs|][j] == objs[j];
    assert all[..b + j] == all[..b] + all[b..b + |objs|][..j];
    SizeOfConcat(all[..b], objs[..j]);
    FlatSize(heaps[..k]);
    assert Regions(heaps[..k]) == Regions(heaps)[..k];
  }

  // ------------------------------------------------------------- the two translations

  lemma {:induction false} SizeUpTo(objs: seq<Obj>, j: nat)
    requires j < |objs|
    ensures SizeOf(objs[..j]) + objs[j].length <= SizeOf(objs)
  {
    var n := |objs| - 1;
    if j < n {
      SizeUpTo(objs[..n], j);
      assert objs[..n][..j] == objs[..j];
    }
  }

  lemma PtrTablesSeparate(h: Hdr)
    requires Sound(h)
    ensures Disjoint(Regions(h.heaps)) && Separated(Regions(h.heaps))
  {
    hide SizeOf;
    var rs := Regions(h.heaps);
    forall i, k | 0 <= i < |rs| && 0 <= k < |rs| && i != k
      ensures End(rs[i]) < rs[k].lo || End(rs[k]) < rs[i].lo
    {
      assert Gap(RegionOf(h.heaps[i]), RegionOf(h.heaps[k])) || Gap(RegionOf(h.heaps[k]), RegionOf(h.heaps[i]));
    }
    GapsSeparate(rs);
  }

  /** A pointer survives the round trip. */
  lemma PtrSurvives(h: Hdr, p: nat, new': PtrHeap, base: nat)
    requires Sound(h) && PtrOk(h, p) && new'.dataStart == base + HDR_HEAP_HDR_SIZE
    requires SameShape(Flat(h.heaps), new'.objs)
    ensures Found(Regions(h.heaps), p)
    ensures SamePlace(h.heaps, p, new', Shift(PtrOut(TablesOf(h), p), base))
  {
    hide SizeOf, TotalSize, Flat, Translate, Separated, Disjoint;
    if p != 0 {
      PtrTablesSeparate(h);
      forall k, j, d | Denotes(h.heaps, p, k, j, d)
        ensures Found(Regions(h.heaps), p)
        ensures Denotes([new'], Shift(PtrOut(TablesOf(h), p), base), 0, Before(h.heaps, k) + j, d)
      {
        PtrLands(h, p, k, j, d);
        var n := Before(h.heaps, k) + j;
        ShapePrefix(Flat(h.heaps), new'.objs, n);
      }
    }
  }

  // The offset of a pointer is where its object's copy starts, plus its place in it.
  lemma PtrLands(h: Hdr, p: nat, k: nat, j: nat, d: nat)
    requires Sound(h) && p != 0 && Denotes(h.heaps, p, k, j, d)
    requires Disjoint(Regions(h.heaps)) && Separated(Regions(h.heaps))
    ensures Found(Regions(h.heaps), p)
    ensures var n := Before(h.heaps, k) + j;
      && n < |Flat(h.heaps)| && d < Flat(h.heaps)[n].length
      && PtrOut(TablesOf(h), p) == HDR_HEAP_HDR_SIZE + SizeOf(Flat(h.heaps)[..n]) + d
  {
    hide SizeOf, TotalSize, Flat, Separated, Disjoint;
    var rs := Regions(h.heaps);
    SizeUpTo(h.heaps[k].objs, j);
    assert Within(p, 1, rs[k]);
    SeparatedIsExact(rs, k, p);
    assert Translate(rs, HDR_HEAP_HDR_SIZE, p) == CopyAt(rs, HDR_HEAP_HDR_SIZE, k) + p - rs[k].lo;
    CopyOfObject(h.heaps, k, j);
  }

  /** Same lengths, object by object. */
  ghost predicate SameShape(a: seq<Obj>, b: seq<Obj>) {
    |a| == |b| && forall i :: 0 <= i < |a| ==> a[i].length == b[i].length
  }

  lemma {:induction false} ShapePrefix(a: seq<Obj>, b: seq<Obj>, n: nat)
    requires SameShape(a, b) && n <= |a|
    ensures SizeOf(a[..n]) == SizeOf(b[..n])
  {
    if n > 0 {
      ShapePrefix(a, b, n - 1);
      assert a[..n][..n - 1] == a[..n - 1] && b[..n][..n - 1] == b[..n - 1];
    }
  }

  /** The string part of the marshalled buffer stands in memory at `base`. */
  ghost predicate Loaded(h: Hdr, mem': seq<char>, base: nat)
    requires AllInMemory(h.mem, Strings(h))
  {
    var at, t := base + TablesOf(h).StrAt(), Copied(h.mem, Strings(h));
    at + |t| <= |mem'| && mem'[at..at + |t|] == t
  }

  /** A string survives the round trip. */
  lemma StrSurvives(h: Hdr, s: StrRef, mem': seq<char>, base: nat)
    requires Sound(h) && StrOk(h, s) && Loaded(h, mem', base)
    ensures StrFound(TablesOf(h), s)
    ensures SameText(h.mem, s, mem', StrIn(StrOut(TablesOf(h), s), base))
  {
    hide TotalSize, Copied, Translate, Separated, Disjoint, Strings;
    if s.ptr != 0 {
      var rs, x := Strings(h), TablesOf(h);
      var k :| 0 <= k < |rs| && Within(s.ptr, s.len, rs[k]);
      TranslatedText(h.mem, rs, k, s.ptr, s.len);
      TranslateShift(rs, x.StrAt(), s.ptr);
      var q, at, t := Translate(rs, 0, s.ptr), base + x.StrAt(), Copied(h.mem, rs);
      SubSlice(mem', at, at + |t|, q, q + s.len);
    }
  }

  lemma FieldSurvives(h: Hdr, f: Field, new': PtrHeap, mem': seq<char>, base: nat)
    requires Sound(h) && Loaded(h, mem', base) && new'.dataStart == base + HDR_HEAP_HDR_SIZE
    requires SameShape(Flat(h.heaps), new'.objs)
    requires f.readiness.Live? ==> StrOk(h, f.name) && StrOk(h, f.value) && PtrOk(h, f.nextDup)
    ensures FieldFound(TablesOf(h), f) && SameField(h, f, new', mem', FieldIn(FieldOut(TablesOf(h), f), base))
  {
    hide Sound, Loaded, SameShape, StrOk, PtrOk, SamePlace, SameText, StrOut, PtrOut, StrIn, Shift, Found, Flat;
    if f.readiness.Live? {
      StrSurvives(h, f.name, mem', base);
      StrSurvives(h, f.value, mem', base);
      PtrSurvives(h, f.nextDup, new', base);
    }
  }

  lemma BlockSurvives(h: Hdr, b: FieldBlock, new': PtrHeap, mem': seq<char>, base: nat)
    requires Sound(h) && Loaded(h, mem', base) && new'.dataStart == base + HDR_HEAP_HDR_SIZE
    requires SameShape(Flat(h.heaps), new'.objs) && BlockOk(h, b)
    ensures BlockFound(TablesOf(h), b) && SameBlock(h, b, new', mem', BlockIn(BlockOut(TablesOf(h), b), base))
  {
    hide Sound, Loaded, SameShape, StrOk, PtrOk, SamePlace, SameField, FieldFound, FieldOut, FieldIn, PtrOut, Shift, Found, Flat;
    PtrSurvives(h, b.next, new', base);
    forall i | 0 <= i < |b.fields| && i < b.freetop
      ensures FieldFound(TablesOf(h), b.fields[i])
      ensures SameField(h, b.fields[i], new', mem', FieldIn(FieldOut(TablesOf(h), b.fields[i]), base))
    {
      FieldSurvives(h, b.fields[i], new', mem', base);
    }
  }

  lemma BodySurvives(h: Hdr, o: Body, new': PtrHeap, mem': seq<char>, base: nat)
    requires Sound(h) && Loaded(h, mem', base) && new'.dataStart == base + HDR_HEAP_HDR_SIZE
    requires SameShape(Flat(h.heaps), new'.objs) && BodyOk(h, o)
    ensures BodyFound(TablesOf(h), o) && SameBody(h, o, new', mem', BodyIn(BodyOut(TablesOf(h), o), base))
  {
    hide Sound, Loaded, SameShape, StrOk, PtrOk, BlockOk, SamePlace, SameText, SameBlock;
    hide BlockFound, BlockOut, BlockIn, StrOut, StrIn, PtrOut, Shift, Found, Flat;
    match o
    case Url(ss) =>
      forall i | 0 <= i < |ss|
        ensures StrFound(TablesOf(h), ss[i]) && SameText(h.mem, ss[i], mem', StrIn(StrOut(TablesOf(h), ss[i]), base))
      {
        StrSurvives(h, ss[i], mem', base);
      }
    case Block(b) => BlockSurvives(h, b, new', mem', base);
    case Mime(tail, b) =>
      PtrSurvives(h, tail, new', base);
      BlockSurvives(h, b, new', mem', base);
    case Empty =>
    case Raw =>
  }

  // ------------------------------------------------------------------- whole headers

  /** What a marshalled buffer holds; its string part is one read-only heap of `strLen`
      bytes at offset `size`. */
  datatype Image = Image(size: nat, strLen: nat, objs: seq<Obj>, bytes: string)

  ghost predicate AllFound(h: Hdr) {
    forall i :: 0 <= i < |Flat(h.heaps)| ==> BodyFound(TablesOf(h), Flat(h.heaps)[i].body)
  }

  ghost function ObjsOut(x: Tables, objs: seq<Obj>): (objs': seq<Obj>)
    requires forall i :: 0 <= i < |objs| ==> BodyFound(x, objs[i].body)
    ensures SameShape(objs, objs')
  {
    seq(|objs|, i requires 0 <= i < |objs| => Obj(objs[i].length, BodyOut(x, objs[i].body)))
  }

  function ObjsIn(objs: seq<Obj>, base: nat): (objs': seq<Obj>)
    ensures SameShape(objs, objs')
  {
    seq(|objs|, i requires 0 <= i < |objs| => Obj(objs[i].length, BodyIn(objs[i].body, base)))
  }

  ghost function ImageOf(h: Hdr): (img: Image)
    requires AllInMemory(h.mem, Strings(h)) && AllFound(h)
  {
    Image(TablesOf(h).StrAt(), TotalSize(Strings(h)), ObjsOut(TablesOf(h), Flat(h.heaps)), Copied(h.mem, Strings(h)))
  }

  /** The header that unmarshalling an image at `base` makes. */
  function Unmarshalled(img: Image, base: nat, mem': seq<char>): (h: Hdr) {
    Hdr([PtrHeap(base + HDR_HEAP_HDR_SIZE, ObjsIn(img.objs, base))], HdrHeap.NoHeap,
        [HdrSlots.Used(base + img.size, img.strLen, false), HdrSlots.Free, HdrSlots.Free], mem')
  }

  lemma SoundInMemory(h: Hdr)
    requires Sound(h)
    ensures AllInMemory(h.mem, Strings(h))
  {
  }

  lemma FoundAll(h: Hdr, mem': seq<char>, base: nat)
    requires WellFormed(h) && Loaded(h, mem', base)
    ensures AllFound(h)
  {
    hide Sound, Loaded, BodyOk, SameBody, BodyFound, Flat;
    var all := Flat(h.heaps);
    forall i | 0 <= i < |all|
      ensures BodyFound(TablesOf(h), all[i].body)
    {
      BodySurvives(h, all[i].body, PtrHeap(base + HDR_HEAP_HDR_SIZE, all), mem', base);
    }
  }

  /** Marshalling a well-formed header finds every pointer, and after unmarshalling the
      buffer at any address every live string reads the same bytes, every block, dup and
      tail pointer denotes the same object, and NULL stays NULL. */
  lemma {:induction false} RoundTrip(h: Hdr, mem': seq<char>, base: nat)
    requires WellFormed(h) && Loaded(h, mem', base)
    ensures AllFound(h)
    ensures var new' := Unmarshalled(ImageOf(h), base, mem').heaps[0]; var all := Flat(h.heaps);
      && SameShape(all, new'.objs)
      && forall i :: 0 <= i < |all| ==> SameBody(h, all[i].body, new', mem', new'.objs[i].body)
  {
    hide Sound, Loaded, BodyOk, SameBody, BodyFound, BodyIn, BodyOut, Flat, Copied, TotalSize, Strings;
    var all := Flat(h.heaps);
    FoundAll(h, mem', base);
    SoundInMemory(h);
    var new' := Unmarshalled(ImageOf(h), base, mem').heaps[0];
    forall i | 0 <= i < |all|
      ensures SameBody(h, all[i].body, new', mem', new'.objs[i].body)
    {
      BodySurvives(h, all[i].body, new', mem', base);
    }
  }
}

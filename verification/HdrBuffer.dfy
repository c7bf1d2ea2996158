module HdrBuffer {
  // The marshalling loops: building the translation tables while copying, patching every
  // object, the length of the buffer, and unmarshalling in place.

  import opened HdrStrings
  import opened HdrXlate
  import opened HdrMarshal
  import HdrSlots
  import HdrHeap

  /** One row of a translation table, as it is stored. */
  datatype Entry = Entry(start: nat, end: nat, offset: int)

  ghost predicate TableFor(tab: seq<Entry>, rs: seq<Region>, at: nat) {
    |tab| == |rs| && forall i :: 0 <= i < |rs| ==> tab[i] == Entry(rs[i].lo, End(rs[i]), rs[i].lo - CopyAt(rs, at, i))
  }

  /** The length a buffer needs. */
  function Length(h: Hdr): (n: nat) {
    Round(HDR_HEAP_HDR_SIZE + TotalSize(Regions(h.heaps)) + TotalSize(Strings(h)), HDR_PTR_SIZE)
  }

  /** It is the next multiple of eight. */
  lemma LengthIs(h: Hdr)
    ensures var n := 136 + TotalSize(Regions(h.heaps)) + TotalSize(Strings(h));
      n <= Length(h) < n + 8 && Length(h) % 8 == 0
  {
    hide TotalSize;
    RoundIs(HDR_HEAP_HDR_SIZE + TotalSize(Regions(h.heaps)) + TotalSize(Strings(h)));
  }

  lemma RoundIs(n: nat)
    ensures n <= Round(n, 8) < n + 8 && Round(n, 8) % 8 == 0
  {
  }

  // ---------------------------------------------------------------- proof steps

  lemma TableGrows(tab: seq<Entry>, rs: seq<Region>, at: nat, r: Region)
    requires TableFor(tab, rs, at)
    ensures TableFor(tab + [Entry(r.lo, End(r), r.lo - (at + TotalSize(rs)))], rs + [r], at)
    ensures TotalSize(rs + [r]) == TotalSize(rs) + r.len
  {
    hide TotalSize;
    var rs' := rs + [r];
    assert forall i :: 0 <= i <= |rs| ==> rs'[..i] == rs[..i];
    assert rs[..|rs|] == rs && rs'[..|rs'|] == rs';
    TotalSizeStep(rs', |rs|);
  }

  lemma CopiedGrows(mem: seq<char>, rs: seq<Region>, r: Region)
    requires AllInMemory(mem, rs) && r.lo + r.len <= |mem|
    ensures AllInMemory(mem, rs + [r]) && Copied(mem, rs + [r]) == Copied(mem, rs) + mem[r.lo..End(r)]
  {
    assert (rs + [r])[..|rs|] == rs;
    assert (rs + [r])[|rs|] == r;
  }

  lemma RegionsUpTo(heaps: seq<PtrHeap>, i: nat)
    requires i < |heaps|
    ensures Regions(heaps[..i + 1]) == Regions(heaps[..i]) + [RegionOf(heaps[i])]
    ensures Flat(heaps[..i + 1]) == Flat(heaps[..i]) + heaps[i].objs
  {
    hide SizeOf;
    assert heaps[..i + 1][..i] == heaps[..i];
  }

  lemma AreasUpTo(rw: HdrHeap.MaybeHeap, ss: seq<HdrSlots.Slot>, i: nat)
    requires i < |ss|
    ensures var a := HdrHeap.Areas(rw, ss[..i]);
      HdrHeap.Areas(rw, ss[..i + 1]) == if ss[i].Used? then a + [Region(ss[i].start, ss[i].len)] else a
  {
    assert ss[..i + 1][..i] == ss[..i];
  }

  lemma {:induction false} AreasPrefix(rw: HdrHeap.MaybeHeap, ss: seq<HdrSlots.Slot>, i: nat)
    requires i <= |ss|
    ensures |HdrHeap.Areas(rw, ss[..i])| <= |HdrHeap.Areas(rw, ss)|
    ensures HdrHeap.Areas(rw, ss[..i]) == HdrHeap.Areas(rw, ss)[..|HdrHeap.Areas(rw, ss[..i])|]
    decreases |ss| - i
  {
    if i < |ss| {
      AreasUpTo(rw, ss, i);
      AreasPrefix(rw, ss, i + 1);
    } else {
      assert ss[..i] == ss;
    }
  }

  // The part of the string heaps met so far lies in memory, and fits if all do.
  lemma AreasSoFar(h: Hdr, i: nat)
    requires i <= |h.ronly| && AllInMemory(h.mem, Strings(h))
    ensures AllInMemory(h.mem, HdrHeap.Areas(h.rw, h.ronly[..i]))
    ensures TotalSize(HdrHeap.Areas(h.rw, h.ronly[..i])) <= TotalSize(Strings(h))
  {
    AreasPrefix(h.rw, h.ronly, i);
    var n := |HdrHeap.Areas(h.rw, h.ronly[..i])|;
    var all := Strings(h);
    assert forall j :: 0 <= j < n ==> HdrHeap.Areas(h.rw, h.ronly[..i])[j] == all[j];
    TotalSizeMonotone(all, n, |all|);
  }

  lemma PtrsSoFar(heaps: seq<PtrHeap>, i: nat)
    requires i <= |heaps|
    ensures TotalSize(Regions(heaps[..i])) <= TotalSize(Regions(heaps))
  {
    assert Regions(heaps[..i]) == Regions(heaps)[..i];
    TotalSizeMonotone(Regions(heaps), i, |heaps|);
  }

  // --------------------------------------------------------------------- marshalling

  /** `marshal_length`. */
  method MarshalLength(h: Hdr) returns (len: nat)
    requires h.rw.Heap? ==> h.rw.h.Valid()
    ensures len == Length(h)
  {
    hide TotalSize, SizeOf, HdrHeap.SlotRegions, Round;
    len := HDR_HEAP_HDR_SIZE;
    var i := 0;
    NoRegions(h);
    while i < |h.heaps|
      invariant 0 <= i <= |h.heaps| && len == HDR_HEAP_HDR_SIZE + TotalSize(Regions(h.heaps[..i]))
    {
      RegionsUpTo(h.heaps, i);
      TableSize(Regions(h.heaps[..i]), RegionOf(h.heaps[i]));
      len := len + SizeOf(h.heaps[i].objs);
      i := i + 1;
    }
    assert h.heaps[..i] == h.heaps;
    if h.rw.Heap? {
      len := len + (h.rw.h.size - (STR_HEAP_HDR_SIZE + h.rw.h.FreeSize()));
    }
    var j := 0;
    while j < |h.ronly|
      invariant 0 <= j <= |h.ronly|
      invariant len == HDR_HEAP_HDR_SIZE + TotalSize(Regions(h.heaps)) + TotalSize(HdrHeap.Areas(h.rw, h.ronly[..j]))
    {
      AreasUpTo(h.rw, h.ronly, j);
      if h.ronly[j].Used? {
        TableSize(HdrHeap.Areas(h.rw, h.ronly[..j]), Region(h.ronly[j].start, h.ronly[j].len));
        len := len + h.ronly[j].len;
      }
      j := j + 1;
    }
    assert h.ronly[..j] == h.ronly;
    len := Round(len, HDR_PTR_SIZE);
  }

  lemma TableSize(rs: seq<Region>, r: Region)
    ensures TotalSize(rs + [r]) == TotalSize(rs) + r.len
  {
    assert (rs + [r])[..|rs|] == rs;
  }

  lemma NoRegions(h: Hdr)
    ensures Regions(h.heaps[..0]) == [] && TotalSize([]) == 0 && Flat(h.heaps[..0]) == []
    ensures HdrHeap.Areas(h.rw, h.ronly[..0]) ==
            if h.rw.Heap? then [Region(h.rw.h.base + STR_HEAP_HDR_SIZE, h.rw.h.used)] else []
    ensures TotalSize(HdrHeap.Areas(h.rw, h.ronly[..0])) == if h.rw.Heap? then h.rw.h.used else 0
  {
    if h.rw.Heap? {
      TableSize([], Region(h.rw.h.base + STR_HEAP_HDR_SIZE, h.rw.h.used));
      assert [] + [Region(h.rw.h.base + STR_HEAP_HDR_SIZE, h.rw.h.used)] == [Region(h.rw.h.base + STR_HEAP_HDR_SIZE, h.rw.h.used)];
    }
  }

  // The first part of `marshal`: the pointer heaps and their table.
  method CopyPtrHeaps(h: Hdr, len: nat) returns (ok: bool, objs: seq<Obj>, tab: seq<Entry>, left: nat)
    ensures ok <==> TotalSize(Regions(h.heaps)) <= len
    ensures ok ==> objs == Flat(h.heaps) && TableFor(tab, Regions(h.heaps), HDR_HEAP_HDR_SIZE)
    ensures ok ==> left == len - TotalSize(Regions(h.heaps))
  {
    hide TotalSize, SizeOf, Flat, TableFor;
    objs, tab, left, ok := [], [], len, true;
    var b := HDR_HEAP_HDR_SIZE;
    var i := 0;
    NoRegions(h);
    EmptyTable();
    while i < |h.heaps|
      invariant 0 <= i <= |h.heaps| && objs == Flat(h.heaps[..i])
      invariant TableFor(tab, Regions(h.heaps[..i]), HDR_HEAP_HDR_SIZE)
      invariant b == HDR_HEAP_HDR_SIZE + TotalSize(Regions(h.heaps[..i])) && left == len - TotalSize(Regions(h.heaps[..i]))
    {
      var size := SizeOf(h.heaps[i].objs);
      RegionsUpTo(h.heaps, i);
      TableGrows(tab, Regions(h.heaps[..i]), HDR_HEAP_HDR_SIZE, RegionOf(h.heaps[i]));
      PtrsSoFar(h.heaps, i + 1);
      if size > left {
        return false, [], [], 0;
      }
      objs := objs + h.heaps[i].objs;
      tab := tab + [Entry(h.heaps[i].dataStart, h.heaps[i].dataStart + size, h.heaps[i].dataStart - b)];
      b, left := b + size, left - size;
      i := i + 1;
    }
    assert h.heaps[..i] == h.heaps;
  }

  lemma EmptyTable()
    ensures forall at :: TableFor([], [], at)
  {
  }

  // The second part: the string heaps and their table.
  method CopyStrHeaps(h: Hdr, at: nat, len: nat) returns (ok: bool, bytes: string, tab: seq<Entry>)
    requires (h.rw.Heap? ==> h.rw.h.Valid()) && AllInMemory(h.mem, Strings(h))
    ensures ok <==> TotalSize(Strings(h)) <= len
    ensures ok ==> bytes == Copied(h.mem, Strings(h)) && TableFor(tab, Strings(h), at)
  {
    hide TotalSize, HdrHeap.SlotRegions, TableFor, HdrHeap.Areas, Copied;
    bytes, tab, ok := [], [], true;
    var b: nat, left: nat := at, len;
    NoRegions(h);
    EmptyTable();
    AreasSoFar(h, 0);
    if h.rw.Heap? {
      var start, n := h.rw.h.base + STR_HEAP_HDR_SIZE, h.rw.h.size - (STR_HEAP_HDR_SIZE + h.rw.h.FreeSize());
      if n > left {
        return false, [], [];
      }
      assert [] + [Region(start, n)] == [Region(start, n)];
      RegionInMemory(h.mem, [], Region(start, n));
      CopiedGrows(h.mem, [], Region(start, n));
      TableGrows([], [], at, Region(start, n));
      assert [] + [Entry(start, start + n, start - b)] == [Entry(start, start + n, start - b)];
      NothingCopied(h.mem);
      bytes := h.mem[start..start + n];
      tab := [Entry(start, start + n, start - b)];
      b, left := b + n, left - n;
    } else {
      NothingCopied(h.mem);
    }
    var i := 0;
    while i < |h.ronly|
      invariant 0 <= i <= |h.ronly| && AllInMemory(h.mem, HdrHeap.Areas(h.rw, h.ronly[..i]))
      invariant bytes == Copied(h.mem, HdrHeap.Areas(h.rw, h.ronly[..i]))
      invariant TableFor(tab, HdrHeap.Areas(h.rw, h.ronly[..i]), at)
      invariant b == at + TotalSize(HdrHeap.Areas(h.rw, h.ronly[..i])) && left == len - TotalSize(HdrHeap.Areas(h.rw, h.ronly[..i]))
    {
      AreasUpTo(h.rw, h.ronly, i);
      AreasSoFar(h, i + 1);
      if h.ronly[i].Used? {
        var r := Region(h.ronly[i].start, h.ronly[i].len);
        RegionInMemory(h.mem, HdrHeap.Areas(h.rw, h.ronly[..i]), r);
        CopiedGrows(h.mem, HdrHeap.Areas(h.rw, h.ronly[..i]), r);
        TableGrows(tab, HdrHeap.Areas(h.rw, h.ronly[..i]), at, r);
        if r.len > left {
          return false, [], [];
        }
        bytes := bytes + h.mem[r.lo..r.lo + r.len];
        tab := tab + [Entry(r.lo, r.lo + r.len, r.lo - b)];
        b, left := b + r.len, left - r.len;
      }
      i := i + 1;
    }
    assert h.ronly[..i] == h.ronly;
  }

  lemma NothingCopied(mem: seq<char>)
    ensures Copied(mem, []) == []
  {
  }

  lemma RegionInMemory(mem: seq<char>, rs: seq<Region>, r: Region)
    requires AllInMemory(mem, rs + [r])
    ensures r.lo + r.len <= |mem|
  {
    assert (rs + [r])[|rs|] == r;
  }

  /** The lookup of the translation macros. */
  method Lookup(tab: seq<Entry>, p: nat, ghost rs: seq<Region>, ghost at: nat) returns (ok: bool, q: nat)
    requires TableFor(tab, rs, at)
    ensures ok == Found(rs, p) && (ok ==> q == Translate(rs, at, p))
  {
    ok, q := true, 0;
    if p != 0 {
      var i := 0;
      while i < |tab|
        invariant 0 <= i <= |tab| && FirstHit(rs, p, i) == FirstHit(rs, p, 0)
      {
        if tab[i].start <= p <= tab[i].end {
          q := p - tab[i].offset;
          return;
        }
        i := i + 1;
      }
      ok := false;
    }
  }

  /** The lookup in a table of one row. */
  method Lookup1(tab: seq<Entry>, p: nat, ghost rs: seq<Region>, ghost at: nat) returns (ok: bool, q: nat)
    requires TableFor(tab, rs, at) && |tab| == 1
    ensures ok == Found(rs, p) && (ok ==> q == Translate(rs, at, p))
  {
    ok, q := true, 0;
    if p != 0 {
      ok := false;
      assert FirstHit(rs, p, 0) == if Hits(rs[0], p) then 0 else 1;
      if tab[0].start <= p <= tab[0].end {
        ok, q := true, p - tab[0].offset;
      }
    }
  }

  /** One field, through the short lookup when both tables have one row. */
  method MarshalField(f: Field, pt: seq<Entry>, st: seq<Entry>, ghost x: Tables) returns (ok: bool, f': Field)
    requires TableFor(pt, x.ptrs, HDR_HEAP_HDR_SIZE) && TableFor(st, x.strs, x.StrAt())
    ensures ok == FieldFound(x, f) && (ok ==> f' == FieldOut(x, f))
  {
    hide TableFor, Found, Translate, TotalSize;
    ok, f' := true, f;
    if f.readiness.Live? {
      var a, b, c, n, v, d;
      if SingleRows(pt, st) {
        a, n := Lookup1(st, f.name.ptr, x.strs, x.StrAt());
        b, v := Lookup1(st, f.value.ptr, x.strs, x.StrAt());
        c, d := Lookup1(pt, f.nextDup, x.ptrs, HDR_HEAP_HDR_SIZE);
      } else {
        a, n := Lookup(st, f.name.ptr, x.strs, x.StrAt());
        b, v := Lookup(st, f.value.ptr, x.strs, x.StrAt());
        c, d := Lookup(pt, f.nextDup, x.ptrs, HDR_HEAP_HDR_SIZE);
      }
      ok := a && b && c;
      if ok {
        f' := Field(Live, StrRef(n, f.name.len), StrRef(v, f.value.len), d);
      }
    }
  }

  predicate SingleRows(pt: seq<Entry>, st: seq<Entry>) {
    |pt| == 1 && |st| == 1
  }

  /** `MIMEFieldBlockImpl::marshal`. */
  method MarshalBlock(b: FieldBlock, pt: seq<Entry>, st: seq<Entry>, ghost x: Tables) returns (ok: bool, b': FieldBlock)
    requires TableFor(pt, x.ptrs, HDR_HEAP_HDR_SIZE) && TableFor(st, x.strs, x.StrAt())
    ensures ok == BlockFound(x, b) && (ok ==> b' == BlockOut(x, b))
  {
    hide TableFor, Found, FieldFound, FieldOut, TotalSize;
    b' := b;
    var next;
    ok, next := Lookup(pt, b.next, x.ptrs, HDR_HEAP_HDR_SIZE);
    if !ok {
      return;
    }
    var fs := b.fields;
    var i := 0;
    while i < b.freetop && i < |fs|
      invariant 0 <= i <= |fs| == |b.fields|
      invariant forall j :: 0 <= j < i ==> j < b.freetop && FieldFound(x, b.fields[j]) && fs[j] == FieldOut(x, b.fields[j])
      invariant forall j :: i <= j < |fs| ==> fs[j] == b.fields[j]
    {
      var f;
      ok, f := MarshalField(fs[i], pt, st, x);
      if !ok {
        return;
      }
      fs := fs[i := f];
      i := i + 1;
    }
    b' := FieldBlock(next, b.freetop, fs);
    ok := true;
    assert BlockFound(x, b);
    assert b'.fields == BlockOut(x, b).fields;
  }

  /** `URLImpl::marshal`: one string after the other. */
  method MarshalUrl(ss: seq<StrRef>, st: seq<Entry>, ghost x: Tables) returns (ok: bool, ss': seq<StrRef>)
    requires TableFor(st, x.strs, x.StrAt())
    ensures ok == BodyFound(x, Url(ss)) && (ok ==> Url(ss') == BodyOut(x, Url(ss)))
  {
    hide TableFor, Found, TotalSize, Translate;
    ss' := ss;
    var i := 0;
    while i < |ss|
      invariant 0 <= i <= |ss| == |ss'|
      invariant forall j :: 0 <= j < i ==> StrFound(x, ss[j]) && ss'[j] == StrOut(x, ss[j])
      invariant forall j :: i <= j < |ss| ==> ss'[j] == ss[j]
    {
      var q;
      ok, q := Lookup(st, ss[i].ptr, x.strs, x.StrAt());
      if !ok {
        assert !StrFound(x, ss[i]);
        return;
      }
      ss' := ss'[i := StrRef(q, ss[i].len)];
      i := i + 1;
    }
    ok := true;
    assert BodyFound(x, Url(ss));
    assert ss' == BodyOut(x, Url(ss)).strs;
  }

  method MarshalBody(o: Body, pt: seq<Entry>, st: seq<Entry>, ghost x: Tables) returns (ok: bool, o': Body)
    requires TableFor(pt, x.ptrs, HDR_HEAP_HDR_SIZE) && TableFor(st, x.strs, x.StrAt())
    ensures ok == BodyFound(x, o) && (ok ==> o' == BodyOut(x, o))
  {
    hide TableFor, Found, BlockFound, BlockOut, TotalSize;
    o' := o;
    match o
    case Url(ss) =>
      var ss';
      ok, ss' := MarshalUrl(ss, st, x);
      o' := Url(ss');
    case Block(b) =>
      var b';
      ok, b' := MarshalBlock(b, pt, st, x);
      o' := Block(b');
    case Mime(tail, b) =>
      var t, b';
      ok, t := Lookup(pt, tail, x.ptrs, HDR_HEAP_HDR_SIZE);
      if ok {
        ok, b' := MarshalBlock(b, pt, st, x);
        o' := Mime(t, b');
      }
    case Empty => ok := true;
    case Raw => ok := true;
  }

  /** `marshal`: fails exactly when the copies do not fit or a live pointer leads nowhere,
      and otherwise uses exactly `marshal_length()` bytes. The room the loops check is that
      of the copies alone. */
  method Marshal(h: Hdr, len: nat) returns (used: int, img: Image)
    requires (h.rw.Heap? ==> h.rw.h.Valid()) && AllInMemory(h.mem, Strings(h))
    ensures used == -1 <==> !(TotalSize(Regions(h.heaps)) + TotalSize(Strings(h)) <= len && AllFound(h))
    ensures used != -1 ==> used == Length(h) && img == ImageOf(h)
  {
    hide TotalSize, Copied, TableFor, BodyFound, BodyOut, Flat, Strings, Round;
    img := Image(0, 0, [], "");
    var ok, objs, pt, left := CopyPtrHeaps(h, len);
    if !ok {
      return -1, img;
    }
    ghost var x := TablesOf(h);
    var size := HDR_HEAP_HDR_SIZE + (len - left);
    var bytes, st;
    ok, bytes, st := CopyStrHeaps(h, size, left);
    if !ok {
      return -1, img;
    }
    ok, objs := MarshalObjs(objs, pt, st, x);
    if !ok {
      return -1, img;
    }
    img := Image(size, |bytes|, objs, bytes);
    used := Round((len - left) + |bytes| + HDR_HEAP_HDR_SIZE, HDR_PTR_SIZE);
  }

  // The walk over the copied objects.
  method MarshalObjs(objs: seq<Obj>, pt: seq<Entry>, st: seq<Entry>, ghost x: Tables) returns (ok: bool, objs': seq<Obj>)
    requires TableFor(pt, x.ptrs, HDR_HEAP_HDR_SIZE) && TableFor(st, x.strs, x.StrAt())
    ensures ok <==> forall i :: 0 <= i < |objs| ==> BodyFound(x, objs[i].body)
    ensures ok ==> objs' == ObjsOut(x, objs)
  {
    hide TableFor, BodyFound, BodyOut, TotalSize;
    objs' := objs;
    var i := 0;
    while i < |objs|
      invariant 0 <= i <= |objs| == |objs'|
      invariant forall j :: 0 <= j < i ==> BodyFound(x, objs[j].body) && objs'[j] == Obj(objs[j].length, BodyOut(x, objs[j].body))
      invariant forall j :: i <= j < |objs| ==> objs'[j] == objs[j]
    {
      var o;
      ok, o := MarshalBody(objs'[i].body, pt, st, x);
      if !ok {
        return;
      }
      objs' := objs'[i := Obj(objs[i].length, o)];
      i := i + 1;
    }
    ok := true;
    assert objs' == ObjsOut(x, objs);
  }

  /** A well-formed header marshals into `marshal_length()` bytes: both reasons for which
      `marshal` fails are excluded, and unmarshalling accepts that many bytes. */
  lemma MarshalLengthSuffices(h: Hdr)
    requires WellFormed(h)
    ensures AllFound(h) && TotalSize(Regions(h.heaps)) + TotalSize(Strings(h)) <= Length(h)
    ensures TablesOf(h).StrAt() + TotalSize(Strings(h)) <= Length(h)
  {
    hide WellFormed, AllFound, TotalSize, Copied;
    WellFormedIsSound(h);
    SoundInMemory(h);
    var mem' := seq(TablesOf(h).StrAt(), _ => ' ') + Copied(h.mem, Strings(h));
    FoundAll(h, mem', 0);
  }

  lemma WellFormedIsSound(h: Hdr)
    requires WellFormed(h)
    ensures Sound(h)
  {
  }

  // ------------------------------------------------------------------- unmarshalling

  /** `MIMEFieldBlockImpl::unmarshal`. */
  method UnmarshalBlock(b: FieldBlock, base: nat) returns (b': FieldBlock)
    ensures b' == BlockIn(b, base)
  {
    var fs := b.fields;
    var i := 0;
    while i < b.freetop && i < |fs|
      invariant 0 <= i <= |fs| == |b.fields|
      invariant forall j :: 0 <= j < i ==> j < b.freetop && fs[j] == FieldIn(b.fields[j], base)
      invariant forall j :: i <= j < |fs| ==> fs[j] == b.fields[j]
    {
      if fs[i].readiness.Live? {
        fs := fs[i := Field(Live, StrIn(fs[i].name, base), StrIn(fs[i].value, base), Shift(fs[i].nextDup, base))];
      }
      i := i + 1;
    }
    b' := FieldBlock(Shift(b.next, base), b.freetop, fs);
    assert b'.fields == BlockIn(b, base).fields;
  }

  /** `unmarshal` of a buffer at `base`: fails exactly when the buffer is truncated or holds
      a raw object. */
  method Unmarshal(img: Image, base: nat, bufLen: nat, mem: seq<char>) returns (used: int, h: Hdr)
    ensures used == -1 <==> img.size + img.strLen > bufLen || exists i :: 0 <= i < |img.objs| && img.objs[i].body.Raw?
    ensures used != -1 ==> used == Round(img.size + img.strLen, HDR_PTR_SIZE) && h == Unmarshalled(img, base, mem)
  {
    h := Hdr([], HdrHeap.NoHeap, [], mem);
    if img.size + img.strLen > bufLen {
      return -1, h;
    }
    var objs := img.objs;
    var i := 0;
    while i < |objs|
      invariant 0 <= i <= |objs| == |img.objs|
      invariant forall j :: 0 <= j < i ==> !img.objs[j].body.Raw?
      invariant forall j :: 0 <= j < i ==> objs[j] == Obj(img.objs[j].length, BodyIn(img.objs[j].body, base))
      invariant forall j :: i <= j < |objs| ==> objs[j] == img.objs[j]
    {
      var o := objs[i].body;
      match o {
        case Url(ss) => o := Url(seq(|ss|, k requires 0 <= k < |ss| => StrIn(ss[k], base)));
        case Block(b) =>
          var b' := UnmarshalBlock(b, base);
          o := Block(b');
        case Mime(tail, b) =>
          var b' := UnmarshalBlock(b, base);
          o := Mime(Shift(tail, base), b');
        case Empty =>
        case Raw =>
          return -1, h;
      }
      objs := objs[i := Obj(objs[i].length, o)];
      i := i + 1;
    }
    assert objs == ObjsIn(img.objs, base);
    h := Hdr([PtrHeap(base + HDR_HEAP_HDR_SIZE, objs)], HdrHeap.NoHeap,
             [HdrSlots.Used(base + img.size, img.strLen, false), HdrSlots.Free, HdrSlots.Free], mem);
    used := Round(img.size + img.strLen, HDR_PTR_SIZE);
  }

  // -------------------------------------------------------------- marshalling again

  // An offset comes back when the only region of the table is the copy itself.
  lemma OffsetComesBack(at: nat, size: nat, base: nat, q: nat)
    requires 0 < at <= q <= at + size
    ensures var rs := [Region(base + at, size)]; Found(rs, Shift(q, base)) && Translate(rs, at, Shift(q, base)) == q
  {
    var rs := [Region(base + at, size)];
    assert rs[..0] == [];
    assert Hits(rs[0], q + base);
  }

  lemma TranslatedInRange(rs: seq<Region>, at: nat, p: nat)
    requires Found(rs, p) && p != 0
    ensures at <= Translate(rs, at, p) <= at + TotalSize(rs)
  {
    EmptyTextFits(rs, p);
    TranslateShift(rs, at, p);
  }

  /** Tables of a header unmarshalled at `base` from buffers made with `x`. */
  function Again(x: Tables, base: nat): (x': Tables) {
    Tables([Region(base + HDR_HEAP_HDR_SIZE, TotalSize(x.ptrs))], [Region(base + x.StrAt(), TotalSize(x.strs))])
  }

  lemma AgainStrAt(x: Tables, base: nat)
    ensures Again(x, base).StrAt() == x.StrAt()
  {
    var r := Region(base + HDR_HEAP_HDR_SIZE, TotalSize(x.ptrs));
    TableSize([], r);
    assert [] + [r] == [r];
  }

  lemma PtrAgain(x: Tables, base: nat, p: nat)
    requires Found(x.ptrs, p)
    ensures var q := Shift(PtrOut(x, p), base); Found(Again(x, base).ptrs, q) && PtrOut(Again(x, base), q) == PtrOut(x, p)
  {
    hide TotalSize;
    if p != 0 {
      TranslatedInRange(x.ptrs, HDR_HEAP_HDR_SIZE, p);
      OffsetComesBack(HDR_HEAP_HDR_SIZE, TotalSize(x.ptrs), base, PtrOut(x, p));
    }
  }

  lemma StrAgain(x: Tables, base: nat, s: StrRef)
    requires StrFound(x, s)
    ensures var s' := StrIn(StrOut(x, s), base); StrFound(Again(x, base), s') && StrOut(Again(x, base), s') == StrOut(x, s)
  {
    hide TotalSize;
    AgainStrAt(x, base);
    if s.ptr != 0 {
      TranslatedInRange(x.strs, x.StrAt(), s.ptr);
      OffsetComesBack(x.StrAt(), TotalSize(x.strs), base, StrOut(x, s).ptr);
    }
  }

  lemma BlockAgain(x: Tables, base: nat, b: FieldBlock)
    requires BlockFound(x, b)
    ensures var b' := BlockIn(BlockOut(x, b), base); BlockFound(Again(x, base), b') && BlockOut(Again(x, base), b') == BlockOut(x, b)
  {
    hide Found, PtrOut, StrFound, StrOut, StrIn, Shift, TotalSize, Again;
    var x', b1, b' := Again(x, base), BlockOut(x, b), BlockIn(BlockOut(x, b), base);
    PtrAgain(x, base, b.next);
    forall i | 0 <= i < |b.fields| && i < b.freetop
      ensures FieldFound(x', b'.fields[i]) && FieldOut(x', b'.fields[i]) == b1.fields[i]
    {
      var f := b.fields[i];
      assert FieldFound(x, f);
      if f.readiness.Live? {
        StrAgain(x, base, f.name);
        StrAgain(x, base, f.value);
        PtrAgain(x, base, f.nextDup);
      }
    }
    assert BlockFound(x', b');
    assert BlockOut(x', b').fields == b1.fields;
  }

  lemma BodyAgain(x: Tables, base: nat, o: Body)
    requires BodyFound(x, o)
    ensures var o' := BodyIn(BodyOut(x, o), base); BodyFound(Again(x, base), o') && BodyOut(Again(x, base), o') == BodyOut(x, o)
  {
    hide Found, PtrOut, StrFound, StrOut, StrIn, Shift, TotalSize, Again, BlockFound, BlockIn, BlockOut;
    match o
    case Url(ss) =>
      forall i | 0 <= i < |ss|
        ensures var s' := StrIn(StrOut(x, ss[i]), base); StrFound(Again(x, base), s') && StrOut(Again(x, base), s') == StrOut(x, ss[i])
      {
        StrAgain(x, base, ss[i]);
      }
      assert BodyOut(Again(x, base), BodyIn(BodyOut(x, o), base)).strs == BodyOut(x, o).strs;
    case Block(b) => BlockAgain(x, base, b);
    case Mime(tail, b) =>
      PtrAgain(x, base, tail);
      BlockAgain(x, base, b);
    case Empty =>
    case Raw =>
  }

  /** A header unmarshalled at any address marshals to the very same buffer. */
  lemma MarshalsAgain(h: Hdr, mem': seq<char>, base: nat)
    requires AllInMemory(h.mem, Strings(h)) && AllFound(h) && Loaded(h, mem', base)
    ensures var h' := Unmarshalled(ImageOf(h), base, mem');
      AllInMemory(mem', Strings(h')) && AllFound(h') && ImageOf(h') == ImageOf(h)
  {
    hide Flat, TotalSize, SizeOf, Copied, Strings, BodyFound, BodyIn, BodyOut, Again;
    var img, x := ImageOf(h), TablesOf(h);
    var h' := Unmarshalled(img, base, mem');
    AgainTables(h, mem', base);
    var objs := h'.heaps[0].objs;
    forall i | 0 <= i < |objs|
      ensures BodyFound(Again(x, base), objs[i].body) && BodyOut(Again(x, base), objs[i].body) == img.objs[i].body
    {
      BodyAgain(x, base, Flat(h.heaps)[i].body);
    }
    AgainStrAt(x, base);
    assert AllFound(h');
    assert ImageOf(h').objs == img.objs;
  }

  // The tables and the string part of the header unmarshalled.
  lemma AgainTables(h: Hdr, mem': seq<char>, base: nat)
    requires AllInMemory(h.mem, Strings(h)) && AllFound(h) && Loaded(h, mem', base)
    ensures var h' := Unmarshalled(ImageOf(h), base, mem');
      && TablesOf(h') == Again(TablesOf(h), base) && Flat(h'.heaps) == h'.heaps[0].objs
      && AllInMemory(mem', Strings(h')) && Copied(mem', Strings(h')) == Copied(h.mem, Strings(h))
      && TotalSize(Strings(h')) == TotalSize(Strings(h))
  {
    hide Flat, TotalSize, SizeOf, Copied, HdrHeap.Areas, ObjsOut, ObjsIn, AllInMemory;
    var img, x := ImageOf(h), TablesOf(h);
    var h' := Unmarshalled(img, base, mem');
    OneHeap(h'.heaps[0], h.heaps);
    OneSlot(h'.ronly[0].start, h'.ronly[0].len);
    OneRegion(mem', Region(base + x.StrAt(), TotalSize(x.strs)));
  }

  lemma OneHeap(new': PtrHeap, heaps: seq<PtrHeap>)
    requires SameShape(Flat(heaps), new'.objs)
    ensures Flat([new']) == new'.objs && Regions([new']) == [Region(new'.dataStart, TotalSize(Regions(heaps)))]
  {
    var objs, n := new'.objs, |new'.objs|;
    FlatSize(heaps);
    ShapePrefix(Flat(heaps), objs, n);
    assert Flat(heaps)[..n] == Flat(heaps) && objs[..n] == objs;
    assert [new'][..0] == [];
  }

  lemma OneRegion(mem: seq<char>, r: Region)
    requires r.lo + r.len <= |mem|
    ensures AllInMemory(mem, [r]) && TotalSize([r]) == r.len && Copied(mem, [r]) == mem[r.lo..r.lo + r.len]
  {
    assert [] + [r] == [r];
    TableSize([], r);
    CopiedGrows(mem, [], r);
  }

  lemma OneSlot(start: nat, len: nat)
    ensures HdrHeap.Areas(HdrHeap.NoHeap, [HdrSlots.Used(start, len, false), HdrSlots.Free, HdrSlots.Free]) == [Region(start, len)]
  {
    var ss := [HdrSlots.Used(start, len, false), HdrSlots.Free, HdrSlots.Free];
    assert ss[..0] == [] && ss[..3] == ss;
    AreasUpTo(HdrHeap.NoHeap, ss, 0);
    AreasUpTo(HdrHeap.NoHeap, ss, 1);
    AreasUpTo(HdrHeap.NoHeap, ss, 2);
  }
}

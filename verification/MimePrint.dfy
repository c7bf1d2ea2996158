module MimePrint {
  // Printing a header through a window: a buffer of fixed size and a number of characters
  // to skip, so that a long header can be printed piece by piece.

  import opened HttpChars

  /** A field as the printer sees it. A raw-printable field owns its original line, `raw`. */
  datatype PrintField = PrintField(name: string, value: string, live: bool, rawPrintable: bool, raw: string)
  {
    predicate Named() {
      |name| > 0
    }
  }

  // ------------------------------------------------------------ the full rendering

  function Rendering(f: PrintField): (s: string)
    requires f.Named()
  {
    if f.name[0] == '@' then ""
    else if f.rawPrintable then f.raw
    else f.name + ": " + f.value + CRLF
  }

  function Body(fs: seq<PrintField>): (s: string)
    requires forall f :: f in fs ==> f.Named()
  {
    if fs == [] then ""
    else (if fs[0].live then Rendering(fs[0]) else "") + Body(fs[1..])
  }

  function Full(fs: seq<PrintField>): (s: string)
    requires forall f :: f in fs ==> f.Named()
  {
    Body(fs) + CRLF
  }

  // --------------------------------------------------------------------- windows

  /** The buffer so far, its capacity and the characters still to skip. */
  datatype Window = Window(out: string, cap: nat, skip: nat)
  {
    predicate Fits() { |out| <= cap }
  }

  datatype Printed = Printed(w: Window, ok: bool)

  function Min(a: int, b: int): (m: int) {
    if a < b then a else b
  }

  /** `mime_mem_print`. */
  function PieceOut(w: Window, src: string): (p: Printed)
    requires w.Fits()
    ensures p.w.Fits() && p.w.cap == w.cap
  {
    if w.skip > 0 && w.skip >= |src| then Printed(w.(skip := w.skip - |src|), true)
    else
      var rest := src[w.skip..];
      var n := Min(w.cap - |w.out|, |rest|);
      Printed(Window(w.out + rest[..n], w.cap, 0), n == |rest|)
  }

  /** Printing two pieces, the second only if the first was complete, is printing their
      concatenation: pieces cannot be told apart. */
  lemma PieceOutConcat(w: Window, a: string, b: string)
    requires w.Fits()
    ensures var p := PieceOut(w, a); PieceOut(w, a + b) == if p.ok then PieceOut(p.w, b) else p
  {
    var p := PieceOut(w, a);
    if w.skip > 0 && w.skip >= |a| {
      if !(w.skip >= |a + b|) {
        assert (a + b)[w.skip..] == b[w.skip - |a|..];
      }
    } else {
      var ra, n := a[w.skip..], Min(w.cap - |w.out|, |a| - w.skip);
      assert (a + b)[w.skip..] == ra + b;
      if p.ok {
        assert ra[..n] == ra;
        var m := Min(w.cap - |p.w.out|, |b|);
        assert b[0..] == b;
        assert (ra + b)[..|ra| + m] == ra + b[..m];
        assert w.out + (ra + b[..m]) == w.out + ra + b[..m];
      } else {
        assert (ra + b)[..n] == ra[..n];
      }
    }
  }

  /** `mime_field_print`, and `mime_hdr_print` up to the final blank line. */
  function BodyOut(w: Window, fs: seq<PrintField>): (p: Printed)
    requires w.Fits() && forall f :: f in fs ==> f.Named()
    ensures p.w.Fits()
    decreases |fs|
  {
    if fs == [] then Printed(w, true)
    else if !fs[0].live then BodyOut(w, fs[1..])
    else
      var p := FieldOut(w, fs[0]);
      if p.ok then BodyOut(p.w, fs[1..]) else p
  }

  // The slow path: piece by piece.
  function FieldOut(w: Window, f: PrintField): (p: Printed)
    requires w.Fits() && f.Named()
    ensures p.w.Fits()
  {
    if f.name[0] == '@' then Printed(w, true)
    else if f.rawPrintable then PieceOut(w, f.raw)
    else
      var p := PieceOut(w, f.name);
      if !p.ok then p else
      var q := PieceOut(p.w, ": ");
      if !q.ok then q else
      var r := PieceOut(q.w, f.value);
      if !r.ok then r else PieceOut(r.w, CRLF)
  }

  function HdrOut(w: Window, fs: seq<PrintField>): (p: Printed)
    requires w.Fits() && forall f :: f in fs ==> f.Named()
  {
    var p := BodyOut(w, fs);
    if p.ok then PieceOut(p.w, CRLF) else p
  }

  lemma PieceOutNothing(w: Window)
    requires w.Fits()
    ensures PieceOut(w, "") == Printed(w, true)
  {
    assert w.out + "" == w.out;
  }

  lemma FieldOutIsRendering(w: Window, f: PrintField)
    requires w.Fits() && f.Named()
    ensures FieldOut(w, f) == PieceOut(w, Rendering(f))
  {
    PieceOutNothing(w);
    if f.name[0] != '@' && !f.rawPrintable {
      PieceOutConcat(w, f.name, ": ");
      PieceOutConcat(w, f.name + ": ", f.value);
      PieceOutConcat(w, f.name + ": " + f.value, CRLF);
    }
  }

  lemma {:induction false} BodyOutIsBody(w: Window, fs: seq<PrintField>)
    requires w.Fits() && forall f :: f in fs ==> f.Named()
    ensures BodyOut(w, fs) == PieceOut(w, Body(fs))
    decreases |fs|
  {
    if fs == [] {
      PieceOutNothing(w);
    } else if !fs[0].live {
      BodyOutIsBody(w, fs[1..]);
      assert "" + Body(fs[1..]) == Body(fs[1..]);
    } else {
      FieldOutIsRendering(w, fs[0]);
      PieceOutConcat(w, Rendering(fs[0]), Body(fs[1..]));
      var p := FieldOut(w, fs[0]);
      if p.ok {
        BodyOutIsBody(p.w, fs[1..]);
      }
    }
  }

  lemma HdrOutIsFull(w: Window, fs: seq<PrintField>)
    requires w.Fits() && forall f :: f in fs ==> f.Named()
    ensures HdrOut(w, fs) == PieceOut(w, Full(fs))
  {
    BodyOutIsBody(w, fs);
    PieceOutConcat(w, Body(fs), CRLF);
  }

  lemma FreshPiece(text: string, n: nat, k: nat)
    ensures var p := PieceOut(Window("", n, k), text);
      && p.w.out == (if k >= |text| then "" else text[k..Min(k + n, |text|)])
      && (p.ok <==> k + n >= |text|)
  {
    if k < |text| {
      var m := Min(n, |text| - k);
      assert "" + text[k..][..m] == text[k..k + m];
    } else {
      assert "" + "" == "";
    }
  }

  /** Printing with an empty buffer of size `n` and `k` characters to skip gives exactly
      characters k to k + n of the full rendering, and reports success exactly when the
      end was reached. */
  lemma HdrOutIsSlice(fs: seq<PrintField>, n: nat, k: nat)
    requires forall f :: f in fs ==> f.Named()
    ensures var p := HdrOut(Window("", n, k), fs);
      && p.w.out == (if k >= |Full(fs)| then "" else Full(fs)[k..Min(k + n, |Full(fs)|)])
      && (p.ok <==> k + n >= |Full(fs)|)
  {
    HdrOutIsFull(Window("", n, k), fs);
    FreshPiece(Full(fs), n, k);
  }

  /** Resuming where the last window ended, windows of any positive size put the whole
      header back together. */
  function PrintAll(fs: seq<PrintField>, n: nat, k: nat): (s: string)
    requires n > 0 && forall f :: f in fs ==> f.Named()
    decreases if k < |Full(fs)| then |Full(fs)| - k else 0
  {
    HdrOutIsSlice(fs, n, k);
    var p := HdrOut(Window("", n, k), fs);
    if p.ok then p.w.out else p.w.out + PrintAll(fs, n, k + n)
  }

  lemma {:induction false} WindowsCoverTheHeader(fs: seq<PrintField>, n: nat, k: nat)
    requires (forall f :: f in fs ==> f.Named()) && n > 0 && k <= |Full(fs)|
    ensures PrintAll(fs, n, k) == Full(fs)[k..]
    decreases |Full(fs)| - k
  {
    HdrOutIsSlice(fs, n, k);
    if k + n < |Full(fs)| {
      WindowsCoverTheHeader(fs, n, k + n);
      assert Full(fs)[k..] == Full(fs)[k..k + n] + Full(fs)[k + n..];
    }
  }

  // ---------------------------------------------------------------------- length

  function FieldLength(f: PrintField): (n: nat) {
    if f.rawPrintable then |f.raw| else |f.name| + |f.value| + 4
  }

  /** `mime_hdr_length_get`. */
  function LengthGet(fs: seq<PrintField>): (n: nat) {
    if fs == [] then 2 else (if fs[0].live then FieldLength(fs[0]) else 0) + LengthGet(fs[1..])
  }

  predicate NoHidden(fs: seq<PrintField>)
    requires forall f :: f in fs ==> f.Named()
  {
    forall f | f in fs && f.live :: f.Named() && f.name[0] != '@'
  }

  /** The reported length is the printed length exactly when no live field is hidden by a
      leading '@' (a raw line is never empty). */
  lemma {:induction false} LengthIsPrintedLength(fs: seq<PrintField>)
    requires forall f :: f in fs ==> f.Named() && (f.rawPrintable ==> |f.raw| > 0)
    ensures LengthGet(fs) >= |Full(fs)|
    ensures LengthGet(fs) == |Full(fs)| <==> NoHidden(fs)
  {
    if fs != [] {
      LengthIsPrintedLength(fs[1..]);
      assert fs == [fs[0]] + fs[1..];
    }
  }

  // ------------------------------------------------------------------ the printer

  class Printer {
    const buf: array<char>
    var index: nat
    var skip: nat

    ghost predicate Valid()
      reads this
    {
      index <= buf.Length
    }

    ghost function View(): (w: Window)
      reads this, buf
      requires Valid()
      ensures w.Fits()
    {
      Window(buf[..index], buf.Length, skip)
    }

    constructor (n: nat, k: nat)
      ensures Valid() && fresh(buf) && View() == Window("", n, k)
    {
      buf := new char[n](_ => ' ');
      index, skip := 0, k;
    }

    // memcpy to the end of what is printed.
    method Append(src: string)
      requires Valid() && |src| <= buf.Length - index
      modifies this`index, buf
      ensures Valid() && index == old(index) + |src|
      ensures buf[..index] == old(buf[..index]) + src
    {
      forall j | 0 <= j < |src| {
        buf[index + j] := src[j];
      }
      index := index + |src|;
    }

    /** `mime_mem_print`. */
    method MemPrint(src: string) returns (ok: bool)
      requires Valid()
      modifies this, buf
      ensures Valid() && Printed(View(), ok) == PieceOut(old(View()), src)
    {
      var rest := src;
      if skip > 0 {
        if skip >= |src| {
          skip := skip - |src|;
          return true;
        }
        rest := src[skip..];
        skip := 0;
      }
      var n := Min(buf.Length - index, |rest|);
      if n > 0 {
        Append(rest[..n]);
      }
      ok := |rest| == n;
    }

    /** `mime_field_print`: the fast path copies a field that fits whole; it and the slow
        path do the same. */
    method FieldPrint(f: PrintField) returns (ok: bool)
      requires Valid() && f.Named()
      modifies this, buf
      ensures Valid() && Printed(View(), ok) == FieldOut(old(View()), f)
    {
      FieldOutIsRendering(View(), f);
      if f.name[0] == '@' {
        return true;
      }
      if f.rawPrintable {
        if skip == 0 && |f.raw| <= buf.Length - index {
          Append(f.raw);
          return true;
        }
        ok := MemPrint(f.raw);
      } else {
        if skip == 0 && |f.name| + |f.value| + 4 <= buf.Length - index {
          ghost var before := buf[..index];
          Append(f.name);
          Append(": ");
          Append(f.value);
          Append(CRLF);
          assert buf[..index] == before + Rendering(f);
          return true;
        }
        ok := MemPrint(f.name);
        if !ok { return; }
        ok := MemPrint(": ");
        if !ok { return; }
        ok := MemPrint(f.value);
        if !ok { return; }
        ok := MemPrint(CRLF);
      }
    }

    /** `mime_hdr_print`. */
    method HdrPrint(fs: seq<PrintField>) returns (ok: bool)
      requires Valid() && forall f :: f in fs ==> f.Named()
      modifies this, buf
      ensures Valid() && Printed(View(), ok) == HdrOut(old(View()), fs)
    {
      var i := 0;
      while i < |fs|
        invariant 0 <= i <= |fs| && Valid()
        invariant BodyOut(View(), fs[i..]) == BodyOut(old(View()), fs)
      {
        if fs[i].live {
          var done := FieldPrint(fs[i]);
          if !done {
            return false;
          }
        }
        i := i + 1;
      }
      ok := MemPrint(CRLF);
    }
  }
}

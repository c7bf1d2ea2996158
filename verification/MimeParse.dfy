module MimeParse {
  // The header parser on top of the scanner, and the proof that it undoes the printer.

  import opened HttpChars
  import opened MimeScanner
  import opened MimePrint

  const NAME_VALUE_LIMIT := 0xFFFF

  /** A parsed field: its name, its value and its whole line. */
  datatype Parsed = Parsed(name: string, value: string, raw: string)

  datatype LineKind = HeaderEnd | Garbage | TooLong | FieldLine(field: Parsed)

  // ---------------------------------------------------------------- one line

  // Spaces and tabs; with breaks also line breaks.
  predicate Blank(c: char, breaks: bool) {
    IsWs(c) || (breaks && (c == LF || c == CR))
  }

  /** Back up from `hi` over blanks, but not below `lo`. */
  function BackOver(s: string, lo: nat, hi: nat, breaks: bool): (e: nat)
    requires lo <= hi <= |s|
    ensures lo <= e <= hi
  {
    if hi > lo && Blank(s[hi - 1], breaks) then BackOver(s, lo, hi - 1, breaks) else hi
  }

  /** Step forward from `from` over spaces and tabs. */
  function StepOver(s: string, from: nat): (e: nat)
    requires from <= |s|
    ensures from <= e <= |s|
    decreases |s| - from
  {
    if from < |s| && IsWs(s[from]) then StepOver(s, from + 1) else from
  }

  /** Name and value on the two sides of the colon. */
  function SplitAt(line: string, colon: nat): (k: LineKind)
    requires colon < |line|
  {
    var nameEnd := BackOver(line, 0, colon, false);
    var first := StepOver(line, colon + 1);
    var valueEnd := BackOver(line, first, |line|, true);
    if nameEnd >= NAME_VALUE_LIMIT || valueEnd - first >= NAME_VALUE_LIMIT then TooLong
    else FieldLine(Parsed(line[..nameEnd], line[first..valueEnd], line))
  }

  /** Split a line into name and value the way `mime_parser_parse` does. */
  function ParseLine(line: string): (k: LineKind)
    requires line != []
  {
    if (|line| >= 2 && line[0] == CR && line[1] == LF) || line[0] == LF then HeaderEnd
    else if !IsToken(line[0]) && line[0] != '@' then Garbage
    else if IndexOf(line, ':', 0) == |line| then Garbage
    else SplitAt(line, IndexOf(line, ':', 0))
  }

  // -------------------------------------------------------------- whole input

  datatype Status = More | Finished | Failed

  datatype Outcome = Outcome(fields: seq<Parsed>, status: Status)

  /** What one scanned line means for the parser. */
  datatype Verdict = Skip | Quit(status: Status) | Add(field: Parsed)

  function Judge(l: string): (v: Verdict)
    ensures !(v.Quit? && v.status.More?)
  {
    if l == [] then Skip
    else
      match ParseLine(l)
      case HeaderEnd => Quit(Finished)
      case TooLong => Quit(Failed)
      case Garbage => Skip
      case FieldLine(f) => Add(f)
  }

  /** What the parser makes of the scanner's events. */
  function ParseEvents(es: seq<Event>): (o: Outcome)
  {
    if es == [] then Outcome([], More)
    else
      match if es[0].End? then Quit(Finished) else Judge(es[0].text)
      case Skip => ParseEvents(es[1..])
      case Quit(status) => Outcome([], status)
      case Add(f) => Prepend(f, ParseEvents(es[1..]))
  }

  function Prepend(f: Parsed, o: Outcome): (o': Outcome) {
    o.(fields := [f] + o.fields)
  }

  /** One call of `mime_parser_parse`: the fields it adds, its result, the bytes it
      consumes and the scanner it leaves. */
  datatype Call = Call(fields: seq<Parsed>, status: Status, used: nat, st: State)

  function ParseCall(st: State, data: string): (r: Call)
    ensures r.used <= |data|
    decreases |data|, if st.mode.After? then 1 else 0
  {
    var g := NextEvent(true, st, data);
    if g.res.Cont? then Call([], More, g.used, g.next)
    else if g.res.Done? then Call([], Finished, g.used, g.next)
    else
      OkProgress(true, st, data);
      match Judge(g.out)
      case Skip => Later(g.used, ParseCall(g.next, data[g.used..]))
      case Quit(status) => Call([], status, g.used, g.next)
      case Add(f) => WithField(f, Later(g.used, ParseCall(g.next, data[g.used..])))
  }

  function Later(n: nat, r: Call): (r': Call) {
    r.(used := n + r.used)
  }

  function WithField(f: Parsed, r: Call): (r': Call) {
    r.(fields := [f] + r.fields)
  }

  /** Parsing input given in slices, one call for each, until a call ends the header. */
  function ParseSlices(st: State, slices: seq<string>): (o: Outcome)
    decreases |slices|
  {
    if slices == [] then Outcome([], More)
    else
      var r := ParseCall(st, slices[0]);
      if r.status.More? then
        var o := ParseSlices(r.st, slices[1..]);
        Outcome(r.fields + o.fields, o.status)
      else Outcome(r.fields, r.status)
  }

  // A call makes of its slice what `ParseEvents` makes of the scanner's events.
  lemma {:induction false} CallIsEvents(st: State, data: string)
    ensures var r := ParseCall(st, data); var f := Feed(true, st, data);
      && ParseEvents(f.events) == Outcome(r.fields, r.status)
      && (r.status.More? ==> !f.ended && r.st == f.st)
    decreases |data|, if st.mode.After? then 1 else 0
  {
    var g := NextEvent(true, st, data);
    if g.res.Ok? {
      OkProgress(true, st, data);
      CallIsEvents(g.next, data[g.used..]);
      var es := Feed(true, g.next, data[g.used..]).events;
      assert ([Line(g.out)] + es)[1..] == es;
    }
  }

  lemma {:induction false} EventsSplit(a: seq<Event>, b: seq<Event>)
    ensures var o := ParseEvents(a); var q := ParseEvents(b);
      ParseEvents(a + b) == if o.status.More? then Outcome(o.fields + q.fields, q.status) else o
  {
    if a == [] {
      assert a + b == b;
    } else {
      EventsSplit(a[1..], b);
      assert (a + b)[1..] == a[1..] + b;
      var o, q := ParseEvents(a[1..]), ParseEvents(b);
      var v := if a[0].End? then Quit(Finished) else Judge(a[0].text);
      if v.Add? {
        assert [v.field] + (o.fields + q.fields) == [v.field] + o.fields + q.fields;
      }
    }
  }

  /** Slices cannot be observed by the parser either. */
  lemma {:induction false} ParseSlicesIsWhole(st: State, slices: seq<string>)
    ensures ParseSlices(st, slices) == ParseEvents(FeedAll(true, st, slices).events)
    decreases |slices|
  {
    if slices != [] {
      var r, f := ParseCall(st, slices[0]), Feed(true, st, slices[0]);
      CallIsEvents(st, slices[0]);
      if r.status.More? {
        ParseSlicesIsWhole(r.st, slices[1..]);
      }
      if !f.ended {
        EventsSplit(f.events, FeedAll(true, f.st, slices[1..]).events);
      }
    }
  }

  // ------------------------------------------------------- lines in the output

  /** A line the scanner hands out whole: it starts with neither white space nor a line
      break, ends with a line feed, and every other line feed is followed by a space or tab. */
  ghost predicate LineShape(l: string) {
    && l != [] && !IsWsLfCr(l[0]) && l[|l| - 1] == LF
    && forall j :: 0 <= j < |l| - 1 && l[j] == LF ==> IsWs(l[j + 1])
  }

  // Scanning on inside a well-shaped line.
  lemma {:induction false} ScanLine(l: string, k: nat)
    requires LineShape(l) && 0 < k <= |l|
    ensures NextEvent(true, State(if l[k - 1] == LF then After else Inside, l[..k]), l[k..])
         == Got(Cont, |l| - k, "", State(After, l))
    decreases |l| - k
  {
    if k == |l| {
      assert l[..k] == l && l[k..] == "";
    } else {
      ScanLine(l, k + 1);
      assert l[k..][0] == l[k] && l[k..][1..] == l[k + 1..];
      assert l[..k] + [l[k]] == l[..k + 1];
    }
  }

  lemma ScanWholeLine(l: string, rest: string)
    requires LineShape(l) && rest != [] && !IsWs(rest[0])
    ensures NextEvent(true, START, l + rest) == Got(Ok, |l|, l, START)
  {
    ScanLine(l, 1);
    assert l[..1] == "" + [l[0]];
    assert NextEvent(true, START, l) == Got(Cont, |l|, "", State(After, l));
    NextEventSplit(true, START, l, rest);
    assert NextEvent(true, State(After, l), rest) == Got(Ok, 0, l, START);
  }

  // ----------------------------------------------------------- the round trip

  /** What a field must look like for its printed line to parse back into it. */
  ghost predicate Printable(f: PrintField) {
    && f.name != [] && IsToken(f.name[0])
    && (forall c :: c in f.name ==> c != ':' && c != CR && c != LF)
    && !IsWs(f.name[|f.name| - 1])
    && (f.value != [] ==> !IsWs(f.value[0]) && !IsWsLfCr(f.value[|f.value| - 1]))
    && (forall j :: 0 <= j < |f.value| && f.value[j] == LF ==> j + 1 < |f.value| && IsWs(f.value[j + 1]))
    && |f.name| < NAME_VALUE_LIMIT && |f.value| < NAME_VALUE_LIMIT
    && (f.rawPrintable ==> LineShape(f.raw) && ParseLine(f.raw) == FieldLine(Parsed(f.name, f.value, f.raw)))
  }

  lemma RenderedShape(f: PrintField)
    requires Printable(f)
    ensures LineShape(Rendering(f))
  {
    if !f.rawPrintable {
      var r := f.name + ": " + f.value + CRLF;
      var v := |f.name| + 2;
      assert r[|r| - 1] == LF;
      forall j | 0 <= j < |r| - 1 && r[j] == LF
        ensures IsWs(r[j + 1])
      {
        assert forall i :: 0 <= i < |f.name| ==> r[i] == f.name[i] && f.name[i] in f.name;
        if v <= j < v + |f.value| {
          assert r[j] == f.value[j - v];
          assert r[j + 1] == f.value[j + 1 - v];
        }
      }
    }
  }

  lemma RenderedParses(f: PrintField)
    requires Printable(f)
    ensures ParseLine(Rendering(f)) == FieldLine(Parsed(f.name, f.value, Rendering(f)))
  {
    if !f.rawPrintable {
      NameInFront(f.name, ": " + f.value + CRLF);
      assert Rendering(f) == f.name + (": " + f.value + CRLF);
      SplitRendered(f.name, f.value);
    }
  }

  lemma NameInFront(name: string, tail: string)
    requires name != [] && tail != [] && tail[0] == ':' && forall c :: c in name ==> c != ':'
    ensures (name + tail)[0] == name[0]
    ensures IndexOf(name + tail, ':', 0) == |name|
  {
    var r := name + tail;
    assert forall i :: 0 <= i < |name| ==> r[i] == name[i] && name[i] in name;
    assert r[|name|] == ':';
  }

  lemma SplitRendered(name: string, value: string)
    requires name != [] && !IsWs(name[|name| - 1])
    requires value != [] ==> !IsWs(value[0]) && !IsWsLfCr(value[|value| - 1])
    requires |name| < NAME_VALUE_LIMIT && |value| < NAME_VALUE_LIMIT
    ensures var r := name + ": " + value + CRLF; SplitAt(r, |name|) == FieldLine(Parsed(name, value, r))
  {
    var r := name + ": " + value + CRLF;
    var first, end := |name| + 2, |name| + 2 + |value|;
    assert r[|name| - 1] == name[|name| - 1];
    assert r[|name| + 1] == ' ' && r[end] == CR && r[end + 1] == LF;
    assert r[..|name|] == name && r[first..end] == value;
    assert StepOver(r, first) == first by {
      if value != [] { assert r[first] == value[0]; }
    }
    assert BackOver(r, first, end, true) == end by {
      if value != [] { assert r[end - 1] == value[|value| - 1]; }
    }
    assert BackOver(r, first, end + 2, true) == BackOver(r, first, end + 1, true) == end;
    assert StepOver(r, |name| + 1) == first && BackOver(r, 0, |name|, false) == |name|;
    assert |r| == end + 2;
  }

  function Live(fs: seq<PrintField>): (l: seq<PrintField>) {
    if fs == [] then [] else (if fs[0].live then [fs[0]] else []) + Live(fs[1..])
  }

  /** The live fields are those that are live. */
  lemma {:induction false} LiveIs(fs: seq<PrintField>, f: PrintField)
    ensures f in Live(fs) <==> f in fs && f.live
    ensures |Live(fs)| <= |fs|
  {
    if fs != [] {
      LiveIs(fs[1..], f);
      assert fs == [fs[0]] + fs[1..];
    }
  }

  ghost predicate AllPrintable(fs: seq<PrintField>) {
    forall f :: f in fs ==> Printable(f)
  }

  function AsParsed(f: PrintField): (p: Parsed)
    requires f.Named()
  {
    Parsed(f.name, f.value, Rendering(f))
  }

  function AllParsed(fs: seq<PrintField>): (ps: seq<Parsed>)
    requires forall f :: f in fs ==> f.Named()
    ensures |ps| == |fs| && forall j :: 0 <= j < |fs| ==> ps[j] == AsParsed(fs[j])
  {
    if fs == [] then [] else [AsParsed(fs[0])] + AllParsed(fs[1..])
  }

  lemma BodyStart(fs: seq<PrintField>)
    requires AllPrintable(fs)
    ensures Full(fs) != [] && !IsWs(Full(fs)[0])
    decreases |fs|
  {
    if fs != [] {
      BodyStart(fs[1..]);
      assert fs[0] in fs;
      if fs[0].live {
        RenderedShape(fs[0]);
        assert Full(fs)[0] == Rendering(fs[0])[0];
      } else {
        assert Full(fs) == Full(fs[1..]);
      }
    }
  }

  lemma LiveFields(fs: seq<PrintField>)
    ensures forall f :: f in Live(fs) ==> f in fs
    decreases |fs|
  {
    if fs != [] {
      LiveFields(fs[1..]);
      assert fs == [fs[0]] + fs[1..];
    }
  }

  // One line, parsed in front of anything that does not continue it.
  lemma ParseOneLine(l: string, rest: string, p: Parsed)
    requires LineShape(l) && Judge(l) == Add(p) && rest != [] && !IsWs(rest[0])
    ensures ParseCall(START, l + rest) == WithField(p, Later(|l|, ParseCall(START, rest)))
  {
    ScanWholeLine(l, rest);
    assert (l + rest)[|l|..] == rest;
  }

  lemma RenderedJudged(f: PrintField)
    requires Printable(f)
    ensures LineShape(Rendering(f)) && Judge(Rendering(f)) == Add(AsParsed(f))
  {
    RenderedShape(f);
    RenderedParses(f);
  }

  lemma EndLine()
    ensures Full([]) == CRLF
    ensures ParseCall(START, CRLF) == Call([], Finished, 2, START)
  {
    assert "" + CRLF == CRLF;
    assert CRLF[1..] == [LF];
    assert Step(true, START, CR) == Go(State(FoundCr, "" + [CR]));
    assert NextEvent(true, State(FoundCr, "" + [CR]), [LF]) == Got(Done, 1, "" + [CR] + [LF], START);
  }

  /** Parsing a printed header gives back its live fields, in order, name for name and
      value for value, and consumes exactly the printed text. */
  lemma {:induction false} ParseUndoesPrint(fs: seq<PrintField>)
    requires AllPrintable(fs)
    ensures forall f :: f in Live(fs) ==> f.Named()
    ensures ParseCall(START, Full(fs)) == Call(AllParsed(Live(fs)), Finished, |Full(fs)|, START)
    decreases |fs|
  {
    LiveFields(fs);
    if fs == [] {
      EndLine();
    } else {
      ParseUndoesPrint(fs[1..]);
      var f, rest := fs[0], Full(fs[1..]);
      assert f in fs;
      if f.live {
        BodyStart(fs[1..]);
        assert Full(fs) == Rendering(f) + rest;
        RenderedJudged(f);
        ParseOneLine(Rendering(f), rest, AsParsed(f));
        assert Live(fs) == [f] + Live(fs[1..]);
        assert AllParsed(Live(fs)) == [AsParsed(f)] + AllParsed(Live(fs[1..]));
      } else {
        assert Full(fs) == rest;
        assert Live(fs) == Live(fs[1..]);
      }
    }
  }

  /** The same however the printed text is cut into slices. */
  lemma ParseUndoesPrintSliced(fs: seq<PrintField>, slices: seq<string>)
    requires AllPrintable(fs) && Concat(slices) == Full(fs)
    ensures forall f :: f in Live(fs) ==> f.Named()
    ensures ParseSlices(START, slices) == Outcome(AllParsed(Live(fs)), Finished)
  {
    ParseUndoesPrint(fs);
    ParseSlicesIsWhole(START, slices);
    SlicesDoNotMatter(true, START, slices);
    CallIsEvents(START, Full(fs));
  }

  // ------------------------------------------------------------------ the parser

  lemma CallUnfold(st: State, data: string)
    ensures var g := NextEvent(true, st, data);
      match g.res
      case Cont => ParseCall(st, data) == Call([], More, g.used, g.next)
      case Done => ParseCall(st, data) == Call([], Finished, g.used, g.next)
      case Ok =>
        && g.next == START && (g.used > 0 || st.mode.After?)
        && match Judge(g.out)
           case Skip => ParseCall(st, data) == Later(g.used, ParseCall(START, data[g.used..]))
           case Quit(s) => ParseCall(st, data) == Call([], s, g.used, START)
           case Add(f) => ParseCall(st, data) == WithField(f, Later(g.used, ParseCall(START, data[g.used..])))
  {
    if NextEvent(true, st, data).res.Ok? {
      OkProgress(true, st, data);
    }
  }

  class Parser {
    const scanner: Scanner
    var fields: seq<Parsed>

    ghost predicate Valid()
      reads this, scanner
    {
      MimeScanner.Valid(scanner.Contents())
    }

    constructor ()
      ensures Valid() && fresh(scanner) && scanner.Contents() == START && fields == []
    {
      scanner := new Scanner();
      fields := [];
    }

    /** The loops that trim a name or a value at its end. */
    method TrimEnd(line: string, lo: nat, hi: nat, breaks: bool) returns (e: nat)
      requires lo <= hi <= |line|
      ensures e == BackOver(line, lo, hi, breaks)
    {
      e := hi;
      while e > lo && Blank(line[e - 1], breaks)
        invariant lo <= e <= hi && BackOver(line, lo, e, breaks) == BackOver(line, lo, hi, breaks)
      {
        e := e - 1;
      }
    }

    /** The loop that skips to the first character of the value. */
    method TrimStart(line: string, from: nat) returns (first: nat)
      requires from <= |line|
      ensures first == StepOver(line, from)
    {
      first := from;
      while first < |line| && IsWs(line[first])
        invariant from <= first <= |line| && StepOver(line, first) == StepOver(line, from)
      {
        first := first + 1;
      }
    }

    /** The part of `mime_parser_parse` that takes one line apart. */
    method SplitLine(line: string) returns (k: LineKind)
      requires line != []
      ensures k == ParseLine(line)
    {
      if (|line| >= 2 && line[0] == CR && line[1] == LF) || line[0] == LF { return HeaderEnd; }
      if !IsToken(line[0]) && line[0] != '@' { return Garbage; }
      var colon := IndexOf(line, ':', 0);
      if colon == |line| { return Garbage; }
      var nameEnd := TrimEnd(line, 0, colon, false);
      var first := TrimStart(line, colon + 1);
      var valueEnd := TrimEnd(line, first, |line|, true);
      if nameEnd >= NAME_VALUE_LIMIT || valueEnd - first >= NAME_VALUE_LIMIT { return TooLong; }
      k := FieldLine(Parsed(line[..nameEnd], line[first..valueEnd], line));
    }

    method JudgeLine(line: string) returns (v: Verdict)
      ensures v == Judge(line)
    {
      if line == [] { return Skip; }
      var kind := SplitLine(line);
      match kind {
        case HeaderEnd => v := Quit(Finished);
        case TooLong => v := Quit(Failed);
        case Garbage => v := Skip;
        case FieldLine(f) => v := Add(f);
      }
    }

    // One turn of the loop: scan to the next result and deal with the line.
    method Turn(rest: string) returns (go: bool, status: Status, n: nat)
      requires Valid()
      modifies this, scanner
      ensures n <= |rest|
      ensures var q := ParseCall(old(scanner.Contents()), rest);
        && (!go ==> q.fields == [] && fields == old(fields) && q.status == status && q.used == n)
        && (!go && status == More ==> Valid() && scanner.Contents() == q.st)
      ensures go ==> Valid() && scanner.Contents() == START && (n > 0 || old(scanner.mode.After?))
      ensures go ==> var q := ParseCall(old(scanner.Contents()), rest); var q' := ParseCall(START, rest[n..]);
        && q.status == q'.status && q.used == n + q'.used && q.st == q'.st
        && fields + q'.fields == old(fields) + q.fields
    {
      ghost var q := ParseCall(scanner.Contents(), rest);
      CallUnfold(scanner.Contents(), rest);
      var res, used, line, _ := scanner.Get(rest, true);
      go, status, n := false, More, used;
      if res == Cont {
        return;
      }
      if res == Done {
        status := Finished;
        return;
      }
      var v := JudgeLine(line);
      if v.Quit? {
        status := v.status;
        return;
      }
      go := true;
      if v.Add? {
        ghost var q' := ParseCall(START, rest[n..]);
        assert fields + [v.field] + q'.fields == fields + ([v.field] + q'.fields);
        fields := fields + [v.field];
      }
    }

    /** `mime_parser_parse` on one slice: fields are appended as their lines complete. */
    method Parse(data: string) returns (status: Status, used: nat)
      requires Valid()
      modifies this, scanner
      ensures var r := ParseCall(old(scanner.Contents()), data);
        && fields == old(fields) + r.fields && status == r.status && used == r.used
        && (status == More ==> Valid() && scanner.Contents() == r.st)
    {
      ghost var r := ParseCall(scanner.Contents(), data);
      used := 0;
      var rest := data;
      while true
        invariant Valid()
        invariant var q := ParseCall(scanner.Contents(), rest);
          && fields + q.fields == old(fields) + r.fields
          && used + q.used == r.used && q.status == r.status && q.st == r.st
        decreases |rest|, if scanner.mode.After? then 1 else 0
      {
        var go, s, n := Turn(rest);
        used := used + n;
        if !go {
          return s, used;
        }
        rest := rest[n..];
      }
    }
  }
}

module MimeScanner {
  // The incremental line scanner. `NextEvent` says what one call does, byte by byte and
  // without slices; `Scanner.Get` is the slice-optimised loop; the lemmas prove that how
  // the input is cut into slices cannot be observed and that no byte is lost.

  import opened HttpChars

  datatype Mode = Before | FoundCr | Inside | After

  /** The scanner: its mode and the bytes of the unfinished line. */
  datatype State = State(mode: Mode, line: string)

  datatype Result = Cont | Ok | Done

  /** One call: the result, the input bytes used, the line handed out, the new state. */
  datatype Got = Got(res: Result, used: nat, out: string, next: State)

  const START := State(Before, "")

  /** Between lines nothing is buffered; a line that starts with a CR starts with two. */
  predicate Valid(st: State) {
    match st.mode
    case Before => st.line == []
    case FoundCr => st.line == [CR]
    case _ => st.line != [] && (st.line[0] == CR ==> |st.line| > 1 && st.line[1] == CR)
  }

  function Used(g: Got, n: nat): (g': Got) {
    g.(used := g.used + n)
  }

  // A byte c inside a field line.
  function InsideStep(fields: bool, line: string, c: char): (m: Move) {
    if c != LF then Go(State(Inside, line + [c]))
    else if fields then Go(State(After, line + [c]))
    else Stop(Ok, 1, line + [c])
  }

  /** What one byte does: move on, or stop with a result after using the byte or not. */
  datatype Move = Go(st: State) | Stop(res: Result, used: nat, out: string)

  /** With `fields`, continuation lines (a line feed followed by a space or tab) belong to
      the line. A CR that starts a line but does not end the header is put in twice. */
  function Step(fields: bool, st: State, c: char): (m: Move)
    ensures m.Stop? ==> m.used <= 1 && !m.res.Cont?
  {
    match st.mode
    case Before =>
      if c == CR then Go(State(FoundCr, st.line + [CR]))
      else if c == LF then Stop(Done, 1, st.line + [LF])
      else InsideStep(fields, st.line, c)
    case FoundCr =>
      if c == LF then Stop(Done, 1, st.line + [LF])
      else InsideStep(fields, [CR] + st.line, c)
    case Inside => InsideStep(fields, st.line, c)
    case After =>
      if IsWs(c) then InsideStep(fields, st.line, c)
      else Stop(Ok, 0, st.line)
  }

  /** Scan up to the first result. */
  function NextEvent(fields: bool, st: State, data: string): (g: Got)
    ensures g.used <= |data|
    ensures g.res.Cont? ==> g.used == |data|
    decreases |data|
  {
    if data == [] then Got(Cont, 0, "", st)
    else
      match Step(fields, st, data[0])
      case Go(st') => Used(NextEvent(fields, st', data[1..]), 1)
      case Stop(res, n, out) => Got(res, n, out, START)
  }

  lemma {:induction false} NextEventValid(fields: bool, st: State, data: string)
    requires Valid(st)
    ensures Valid(NextEvent(fields, st, data).next)
    decreases |data|
  {
    if data != [] && Step(fields, st, data[0]).Go? {
      StepValid(fields, st, data[0]);
      NextEventValid(fields, Step(fields, st, data[0]).st, data[1..]);
    }
  }

  lemma StepValid(fields: bool, st: State, c: char)
    requires Valid(st)
    ensures Step(fields, st, c).Go? ==> Valid(Step(fields, st, c).st)
  {
  }

  // -------------------------------------------------------- slices do not matter

  /** Scanning `a + b` is scanning `a` and, if that asks for more, scanning `b` from there. */
  lemma {:induction false} NextEventSplit(fields: bool, st: State, a: string, b: string)
    ensures var g := NextEvent(fields, st, a);
      NextEvent(fields, st, a + b) == if g.res.Cont? then Used(NextEvent(fields, g.next, b), |a|) else g
    decreases |a|
  {
    if a == [] {
      assert a + b == b;
    } else {
      assert (a + b)[1..] == a[1..] + b;
      if Step(fields, st, a[0]).Go? {
        NextEventSplit(fields, Step(fields, st, a[0]).st, a[1..], b);
      }
    }
  }

  datatype Event = Line(text: string) | End(text: string)

  /** What a caller sees while it feeds input: the events so far, the scanner, whether the
      header ended, and how many bytes were consumed. */
  datatype Fed = Fed(events: seq<Event>, st: State, ended: bool, used: nat)

  /** Feed one slice: call the scanner until it asks for more input or ends the header. */
  function Feed(fields: bool, st: State, data: string): (r: Fed)
    ensures r.used <= |data| && (!r.ended ==> r.used == |data|)
    decreases |data|, if st.mode.After? then 1 else 0
  {
    var g := NextEvent(fields, st, data);
    match g.res
    case Cont => Fed([], g.next, false, g.used)
    case Done => Fed([End(g.out)], g.next, true, g.used)
    case Ok =>
      OkProgress(fields, st, data);
      var r := Feed(fields, g.next, data[g.used..]);
      Fed([Line(g.out)] + r.events, r.st, r.ended, g.used + r.used)
  }

  lemma {:induction false} OkProgress(fields: bool, st: State, data: string)
    requires NextEvent(fields, st, data).res.Ok?
    ensures NextEvent(fields, st, data).next == START
    ensures NextEvent(fields, st, data).used > 0 || st.mode.After?
    decreases |data|
  {
    if Step(fields, st, data[0]).Go? {
      OkProgress(fields, Step(fields, st, data[0]).st, data[1..]);
    }
  }

  /** Feed slices until the header ends. */
  function FeedAll(fields: bool, st: State, slices: seq<string>): (r: Fed)
    decreases |slices|
  {
    if slices == [] then Fed([], st, false, 0)
    else
      var r := Feed(fields, st, slices[0]);
      if r.ended then r
      else Join(r, FeedAll(fields, r.st, slices[1..]))
  }

  function Join(r: Fed, q: Fed): (f: Fed) {
    Fed(r.events + q.events, q.st, q.ended, r.used + q.used)
  }

  function Concat(slices: seq<string>): (s: string) {
    if slices == [] then "" else slices[0] + Concat(slices[1..])
  }

  lemma {:induction false} FeedSplit(fields: bool, st: State, a: string, b: string)
    ensures var r := Feed(fields, st, a);
      Feed(fields, st, a + b) == if r.ended then r else Join(r, Feed(fields, r.st, b))
    decreases |a|, if st.mode.After? then 1 else 0
  {
    hide NextEvent;
    NextEventSplit(fields, st, a, b);
    var g := NextEvent(fields, st, a);
    if g.res.Ok? {
      OkProgress(fields, st, a);
      assert (a + b)[g.used..] == a[g.used..] + b;
      FeedSplit(fields, g.next, a[g.used..], b);
      var r := Feed(fields, g.next, a[g.used..]);
      if !r.ended {
        var q := Feed(fields, r.st, b);
        assert [Line(g.out)] + (r.events + q.events) == ([Line(g.out)] + r.events) + q.events;
      }
    } else if g.res.Cont? {
      FeedAfterCont(fields, st, a, b);
    }
  }

  // When a is used up without a result, feeding a + b gives what feeding b gives.
  lemma FeedAfterCont(fields: bool, st: State, a: string, b: string)
    requires NextEvent(fields, st, a).res.Cont?
    ensures Feed(fields, st, a + b) == Join(Feed(fields, st, a), Feed(fields, NextEvent(fields, st, a).next, b))
  {
    hide NextEvent;
    NextEventSplit(fields, st, a, b);
    var g := NextEvent(fields, st, a);
    var h := NextEvent(fields, g.next, b);
    if h.res.Ok? {
      assert (a + b)[|a| + h.used..] == b[h.used..];
    }
    var q := Feed(fields, g.next, b);
    assert [] + q.events == q.events;
  }

  /** However the input is cut, the same lines come out, the header ends at the same byte
      and the same bytes stay pending. */
  lemma {:induction false} SlicesDoNotMatter(fields: bool, st: State, slices: seq<string>)
    ensures FeedAll(fields, st, slices) == Feed(fields, st, Concat(slices))
    decreases |slices|
  {
    if slices == [] {
    } else {
      var r := Feed(fields, st, slices[0]);
      FeedSplit(fields, st, slices[0], Concat(slices[1..]));
      if !r.ended {
        SlicesDoNotMatter(fields, r.st, slices[1..]);
      }
    }
  }

  lemma TwoSlicings(fields: bool, st: State, slices: seq<string>, other: seq<string>)
    requires Concat(slices) == Concat(other)
    ensures FeedAll(fields, st, slices) == FeedAll(fields, st, other)
  {
    SlicesDoNotMatter(fields, st, slices);
    SlicesDoNotMatter(fields, st, other);
  }

  // --------------------------------------------------------------- no byte is lost

  // A line without the CR that was put in.
  function Unstuffed(line: string): (s: string) {
    if line != [] && line[0] == CR then line[1..] else line
  }

  function RawPending(st: State): (s: string) {
    if st.mode.Inside? || st.mode.After? then Unstuffed(st.line) else st.line
  }

  function RawEvents(es: seq<Event>): (s: string) {
    if es == [] then ""
    else (match es[0] case Line(l) => Unstuffed(l) case End(l) => l) + RawEvents(es[1..])
  }

  lemma StepConserves(fields: bool, st: State, c: char)
    requires Valid(st)
    ensures match Step(fields, st, c)
      case Go(st') => RawPending(st') == RawPending(st) + [c]
      case Stop(res, n, out) =>
        (if res.Done? then out else Unstuffed(out)) == RawPending(st) + (if n == 0 then "" else [c])
  {
    match st.mode
    case Before => assert st.line + [c] == [c];
    case FoundCr => assert ([CR] + st.line + [c])[1..] == st.line + [c];
    case _ => assert (st.line + [c])[1..] == st.line[1..] + [c] && (st.line + [c])[0] == st.line[0];
  }

  lemma {:induction false} NextEventConserves(fields: bool, st: State, data: string)
    requires Valid(st)
    ensures var g := NextEvent(fields, st, data);
      RawPending(st) + data[..g.used] ==
        (match g.res case Cont => RawPending(g.next) case Ok => Unstuffed(g.out) case Done => g.out)
    decreases |data|
  {
    if data != [] {
      StepConserves(fields, st, data[0]);
      var m, g := Step(fields, st, data[0]), NextEvent(fields, st, data);
      if m.Go? {
        StepValid(fields, st, data[0]);
        NextEventConserves(fields, m.st, data[1..]);
        assert data[..g.used] == [data[0]] + data[1..][..g.used - 1];
      } else {
        assert data[..m.used] == if m.used == 0 then "" else [data[0]];
      }
    }
  }

  /** The emitted lines and the pending bytes are exactly the consumed bytes, plus one CR
      for every line that starts with a CR. */
  lemma {:induction false} FeedConserves(fields: bool, st: State, data: string)
    requires Valid(st)
    ensures var r := Feed(fields, st, data);
      && Valid(r.st)
      && RawEvents(r.events) + (if r.ended then "" else RawPending(r.st)) == RawPending(st) + data[..r.used]
    decreases |data|, if st.mode.After? then 1 else 0
  {
    hide NextEvent;
    NextEventConserves(fields, st, data);
    NextEventValid(fields, st, data);
    var g := NextEvent(fields, st, data);
    if g.res.Ok? {
      OkProgress(fields, st, data);
      FeedConserves(fields, g.next, data[g.used..]);
      var r := Feed(fields, g.next, data[g.used..]);
      RawEventsCons(Line(g.out), r.events);
      ConcatParts(RawPending(st), data, g.used, r.used, Unstuffed(g.out), RawEvents(r.events),
                  if r.ended then "" else RawPending(r.st));
    }
  }

  lemma ConcatParts(p: string, data: string, k: nat, m: nat, x: string, e: string, tail: string)
    requires k <= |data| && m <= |data[k..]|
    requires p + data[..k] == x && e + tail == data[k..][..m]
    ensures x + e + tail == p + data[..k + m]
  {
    assert data[..k + m] == data[..k] + data[k..][..m];
    assert x + e + tail == x + (e + tail);
  }

  lemma RawEventsCons(e: Event, es: seq<Event>)
    ensures RawEvents([e] + es) == (match e case Line(l) => Unstuffed(l) case End(l) => l) + RawEvents(es)
  {
    assert ([e] + es)[1..] == es;
  }

  // ------------------------------------------------------------------ the scanner

  // The next step of a scan that has got to position c.
  lemma StepAt(fields: bool, st: State, data: string, c: nat)
    requires c < |data|
    ensures NextEvent(fields, st, data[c..]) ==
      match Step(fields, st, data[c])
      case Go(st') => Used(NextEvent(fields, st', data[c + 1..]), 1)
      case Stop(res, n, out) => Got(res, n, out, START)
  {
    assert data[c..][0] == data[c] && data[c..][1..] == data[c + 1..];
  }

  // n bytes without a line feed inside a line.
  lemma {:induction false} InsideRun(fields: bool, line: string, data: string, n: nat)
    requires n <= |data| && forall j :: 0 <= j < n ==> data[j] != LF
    ensures NextEvent(fields, State(Inside, line), data)
         == Used(NextEvent(fields, State(Inside, line + data[..n]), data[n..]), n)
    decreases n
  {
    if n == 0 {
      assert line + data[..0] == line && data[0..] == data;
    } else {
      InsideRun(fields, line + [data[0]], data[1..], n - 1);
      assert line + [data[0]] + data[1..][..n - 1] == line + data[..n];
      assert data[1..][n - 1..] == data[n..];
    }
  }

  // The rest of the input holds no line feed.
  lemma NoLineFeed(fields: bool, line: string, data: string, c: nat)
    requires c < |data| && forall j :: c <= j < |data| ==> data[j] != LF
    requires ValidMid(State(Inside, line + data[..c]), data[c..])
    ensures NextEvent(fields, State(Inside, line + data[..c]), data[c..])
         == Used(NextEvent(fields, State(Inside, line + data[..|data|]), data[|data|..]), |data| - c)
    ensures Valid(State(Inside, line + data[..|data|]))
  {
    hide NextEvent;
    var n := |data| - c;
    InsideRun(fields, line + data[..c], data[c..], n);
    assert data[c..][n..] == data[|data|..] && line + data[..c] + data[c..][..n] == line + data[..|data|];
    StartKept(line, data, c, |data|);
  }

  // The next line feed is at lf.
  lemma LineFeedAt(fields: bool, line: string, data: string, c: nat, lf: nat)
    requires c <= lf < |data| && data[lf] == LF && forall j :: c <= j < lf ==> data[j] != LF
    requires ValidMid(State(Inside, line + data[..c]), data[c..])
    ensures NextEvent(fields, State(Inside, line + data[..c]), data[c..]) ==
      if fields then Used(NextEvent(fields, State(After, line + data[..lf + 1]), data[lf + 1..]), lf + 1 - c)
      else Got(Ok, lf + 1 - c, line + data[..lf + 1], START)
    ensures Valid(State(After, line + data[..lf + 1]))
  {
    hide NextEvent;
    var n := lf - c;
    InsideRun(fields, line + data[..c], data[c..], n);
    assert data[c..][n..] == data[lf..] && line + data[..c] + data[c..][..n] == line + data[..lf];
    StepAt(fields, State(Inside, line + data[..lf]), data, lf);
    assert line + data[..lf] + [LF] == line + data[..lf + 1];
    StartKept(line, data, c, lf + 1);
  }

  // Growing a line keeps how it starts.
  lemma StartKept(line: string, data: string, c: nat, e: nat)
    requires c < e <= |data| && ValidMid(State(Inside, line + data[..c]), data[c..])
    ensures Valid(State(Inside, line + data[..e])) && Valid(State(After, line + data[..e]))
  {
    var p, q := line + data[..c], line + data[..e];
    assert |p| < |q| && q[..|p|] == p;
    if p == [] {
      assert q[0] == data[c];
    } else {
      assert q[0] == p[0] && (|p| > 1 ==> q[1] == p[1]);
    }
  }

  // Inside the loop a line may just have been entered, its first byte still to come.
  predicate ValidMid(st: State, rest: string) {
    Valid(st) || (st == State(Inside, "") && rest != "" && rest[0] != CR && rest[0] != LF)
  }

  class Scanner {
    var mode: Mode
    var line: string

    ghost function Contents(): (st: State)
      reads this
    {
      State(mode, line)
    }

    constructor ()
      ensures Contents() == START
    {
      mode, line := Before, "";
    }

    // What is left of the call from position c on.
    ghost function Rest(data: string, c: nat, fields: bool): (g: Got)
      reads this
      requires c <= |data|
    {
      Used(NextEvent(fields, State(mode, line + data[..c]), data[c..]), c)
    }

    // At the start of a line.
    method BeforeTurn(data: string, c: nat, fields: bool) returns (c': nat, res: Result)
      requires c < |data| && mode.Before? && line + data[..c] == ""
      modifies this`mode
      ensures c <= c' <= |data|
      ensures res == Cont ==> ValidMid(State(mode, line + data[..c']), data[c'..]) && !mode.Before?
      ensures res == Cont ==> Rest(data, c', fields) == old(Rest(data, c, fields))
      ensures res != Cont ==> res == Done && old(Rest(data, c, fields)) == Got(res, c', line + data[..c'], START)
    {
      hide NextEvent;
      StepAt(fields, State(Before, ""), data, c);
      c', res := c, Cont;
      if data[c] == CR {
        c' := c + 1;
        assert line + data[..c'] == [CR] == "" + [CR];
        if c' < |data| && data[c'] == LF {
          StepAt(fields, State(FoundCr, [CR]), data, c');
          c' := c' + 1;
          assert line + data[..c'] == [CR] + [LF];
          res := Done;
        } else {
          mode := FoundCr;
        }
      } else if data[c] == LF {
        c' := c + 1;
        assert line + data[..c'] == [LF];
        res := Done;
      } else {
        StepAt(fields, State(Inside, ""), data, c);
        mode := Inside;
      }
    }

    // After a CR at the start of a line.
    method FoundCrTurn(data: string, c: nat, fields: bool) returns (c': nat, res: Result)
      requires c < |data| && mode.FoundCr? && line + data[..c] == [CR]
      modifies this
      ensures c <= c' <= |data|
      ensures res == Cont ==> ValidMid(State(mode, line + data[..c']), data[c'..]) && mode.Inside?
      ensures res == Cont ==> Rest(data, c', fields) == old(Rest(data, c, fields))
      ensures res != Cont ==> res == Done && old(Rest(data, c, fields)) == Got(res, c', line + data[..c'], START)
    {
      hide NextEvent;
      StepAt(fields, State(FoundCr, [CR]), data, c);
      c', res := c, Cont;
      if data[c] == LF {
        c' := c + 1;
        assert line + data[..c'] == [CR] + [LF];
        res := Done;
      } else {
        line := line + [CR];
        mode := Inside;
        assert line + data[..c] == [CR] + [CR];
        StepAt(fields, State(Inside, [CR] + [CR]), data, c);
      }
    }

    // Inside a line: up to the next line feed.
    method InsideTurn(data: string, c: nat, fields: bool) returns (c': nat, res: Result)
      requires c < |data| && mode.Inside? && ValidMid(State(mode, line + data[..c]), data[c..])
      modifies this`mode
      ensures c < c' <= |data|
      ensures res == Cont ==> Valid(State(mode, line + data[..c']))
      ensures res == Cont ==> Rest(data, c', fields) == old(Rest(data, c, fields))
      ensures res != Cont ==> res == Ok && mode == Before
      ensures res != Cont ==> old(Rest(data, c, fields)) == Got(res, c', line + data[..c'], START)
    {
      hide NextEvent;
      res := Cont;
      var lf := IndexOf(data, LF, c);
      if lf < |data| {
        LineFeedAt(fields, line, data, c, lf);
        c' := lf + 1;
        if !fields {
          res, mode := Ok, Before;
        } else {
          mode := After;
        }
      } else {
        NoLineFeed(fields, line, data, c);
        c' := |data|;
      }
    }

    // After a line feed.
    method AfterTurn(data: string, c: nat, fields: bool) returns (res: Result)
      requires c < |data| && mode.After? && Valid(State(mode, line + data[..c]))
      modifies this`mode
      ensures res == Cont ==> Valid(State(mode, line + data[..c])) && mode.Inside?
      ensures res == Cont ==> Rest(data, c, fields) == old(Rest(data, c, fields))
      ensures res != Cont ==> res == Ok && mode == Before
      ensures res != Cont ==> old(Rest(data, c, fields)) == Got(res, c, line + data[..c], START)
    {
      hide NextEvent;
      StepAt(fields, State(After, line + data[..c]), data, c);
      StepAt(fields, State(Inside, line + data[..c]), data, c);
      res := Cont;
      if IsWs(data[c]) {
        mode := Inside;
      } else {
        mode, res := Before, Ok;
      }
    }

    /** `mime_scanner_get` with more input to come. `shared` says the line handed out is
        the raw input itself. The mode after the end of the header is not specified. */
    method Get(data: string, fields: bool) returns (res: Result, used: nat, out: string, shared: bool)
      requires Valid(Contents())
      modifies this
      ensures var g := NextEvent(fields, old(Contents()), data);
        && res == g.res && used == g.used
        && (res != Cont ==> out == g.out)
        && (res != Done ==> Contents() == g.next && Valid(Contents()))
      ensures shared <==> res != Cont && |out| == used
      ensures shared ==> out == data[..used]
    {
      ghost var g := NextEvent(fields, Contents(), data);
      NextEventValid(fields, Contents(), data);
      res, out, shared := Cont, "", false;
      var c := 0;
      assert line + data[..0] == line && data[0..] == data;
      while res == Cont && c < |data|
        invariant 0 <= c <= |data|
        invariant res == Cont ==> ValidMid(State(mode, line + data[..c]), data[c..]) && Rest(data, c, fields) == g
        invariant res != Cont ==> g == Got(res, c, line + data[..c], START)
        invariant res == Ok ==> mode == Before
        decreases if res == Cont then 1 else 0, |data| - c,
                  if mode.Before? then 2 else if mode.FoundCr? || mode.After? then 1 else 0
      {
        match mode {
          case Before => c, res := BeforeTurn(data, c, fields);
          case FoundCr => c, res := FoundCrTurn(data, c, fields);
          case Inside => c, res := InsideTurn(data, c, fields);
          case After => res := AfterTurn(data, c, fields);
        }
      }
      used := c;
      if res == Cont {
        line := line + data;
        assert data == data[..c];
        assert data[c..] == [];
      } else if |line| != 0 {
        out := line + data[..c];
        line := "";
      } else {
        out := data[..c];
        shared := true;
      }
    }
  }
}

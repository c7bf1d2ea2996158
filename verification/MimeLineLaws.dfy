module MimeLineLaws {
  // Lines by their layout: which lines the scanner hands out, and which name and value a
  // line has, for every amount of white space and not only for the lines the printer
  // writes.

  import opened HttpChars
  import opened MimeScanner
  import opened MimeParse
  import opened MimePrint

  // -------------------------------------------------------------- one line taken apart

  predicate Blanks(t: string) {
    forall i :: 0 <= i < |t| ==> t[i] == ' ' || t[i] == '\t'
  }

  predicate BlanksAndBreaks(t: string) {
    forall i :: 0 <= i < |t| ==> t[i] == ' ' || t[i] == '\t' || t[i] == '\r' || t[i] == '\n'
  }

  predicate NameShape(t: string) {
    && |t| > 0 && (IsToken(t[0]) || t[0] == '@') && t[|t| - 1] != ' ' && t[|t| - 1] != '\t'
    && forall i :: 0 <= i < |t| ==> t[i] != ':'
  }

  predicate ValueShape(t: string) {
    |t| > 0 ==> t[0] != ' ' && t[0] != '\t' && !BlanksAndBreaks(t[|t| - 1..])
  }

  /** A field line: name, blanks, colon, blanks, value, blanks and line breaks. */
  function LineOf(name: string, w1: string, w2: string, value: string, w3: string): (line: string) {
    name + w1 + ":" + w2 + value + w3
  }

  lemma {:induction false} BackOverBlanks(s: string, lo: nat, e: nat, hi: nat, breaks: bool)
    requires lo <= e <= hi <= |s| && (forall j :: e <= j < hi ==> Blank(s[j], breaks))
    requires e > lo ==> !Blank(s[e - 1], breaks)
    ensures BackOver(s, lo, hi, breaks) == e
    decreases hi
  {
    if hi > e {
      BackOverBlanks(s, lo, e, hi - 1, breaks);
    }
  }

  lemma {:induction false} StepOverBlanks(s: string, from: nat, e: nat)
    requires from <= e <= |s| && (forall j :: from <= j < e ==> IsWs(s[j])) && (e < |s| ==> !IsWs(s[e]))
    ensures StepOver(s, from) == e
    decreases e - from
  {
    if from < e {
      StepOverBlanks(s, from + 1, e);
    }
  }

  // Where the parts of a line stand.
  lemma LineParts(name: string, w1: string, w2: string, value: string, w3: string)
    ensures var line := LineOf(name, w1, w2, value, w3); var c := |name| + |w1|; var v := c + 1 + |w2|;
      && |line| == v + |value| + |w3| && line[..|name|] == name && line[v..v + |value|] == value
      && line[c] == ':'
      && (forall i :: 0 <= i < |name| ==> line[i] == name[i])
      && (forall i :: |name| <= i < c ==> line[i] == w1[i - |name|])
      && (forall i :: c < i < v ==> line[i] == w2[i - c - 1])
      && (forall i :: v <= i < v + |value| ==> line[i] == value[i - v])
      && (forall i :: v + |value| <= i < |line| ==> line[i] == w3[i - v - |value|])
  {
    var line, c := LineOf(name, w1, w2, value, w3), |name| + |w1|;
    var v := c + 1 + |w2|;
    assert line[..|name|] == name && line[v..v + |value|] == value;
  }

  // The empty value: everything behind the colon is white space.
  lemma EmptyValue(line: string, from: nat)
    requires from <= |line| && BlanksAndBreaks(line[from..])
    ensures var first := StepOver(line, from); BackOver(line, first, |line|, true) == first
  {
    var first := StepOver(line, from);
    forall j | first <= j < |line|
      ensures Blank(line[j], true)
    {
      assert line[from..][j - from] == line[j];
    }
    BackOverBlanks(line, first, first, |line|, true);
  }

  /** Whatever white space surrounds them, exactly the name and the value come out; lines
      whose name or value is too long are refused. */
  lemma LineTakenApart(name: string, w1: string, w2: string, value: string, w3: string)
    requires NameShape(name) && ValueShape(value) && Blanks(w1) && Blanks(w2) && BlanksAndBreaks(w3)
    ensures var line := LineOf(name, w1, w2, value, w3);
      |line| > 0 && ParseLine(line) ==
        if |name| >= NAME_VALUE_LIMIT || |value| >= NAME_VALUE_LIMIT then TooLong
        else FieldLine(Parsed(name, value, line))
  {
    hide IsToken, BackOver, StepOver, LineOf;
    LineParts(name, w1, w2, value, w3);
    var line, c := LineOf(name, w1, w2, value, w3), |name| + |w1|;
    var v := c + 1 + |w2|;
    TokenIsNoBreak(name[0]);
    assert IndexOf(line, ':', 0) == c;
    BackOverBlanks(line, 0, |name|, c, false);
    if |value| > 0 {
      assert line[v] == value[0] && line[v + |value| - 1] == value[|value| - 1];
      assert value[|value| - 1..] == [value[|value| - 1]];
      StepOverBlanks(line, c + 1, v);
      BackOverBlanks(line, v, v + |value|, |line|, true);
    } else {
      forall j | c + 1 <= j < |line|
        ensures line[j] == ' ' || line[j] == '\t' || line[j] == '\r' || line[j] == '\n'
      {
      }
      EmptyValue(line, c + 1);
    }
  }

  lemma TokenIsNoBreak(c: char)
    requires IsToken(c) || c == '@'
    ensures c != CR && c != LF
  {
  }

  // Where name and value of a field line stand.
  lemma FieldPlaces(line: string) returns (e: nat, c: nat, first: nat, last: nat)
    requires line != [] && ParseLine(line).FieldLine?
    ensures 0 < e <= c < first <= last <= |line| && line[c] == ':' && forall j :: 0 <= j < c ==> line[j] != ':'
    ensures ParseLine(line).field == Parsed(line[..e], line[first..last], line)
    ensures e < NAME_VALUE_LIMIT && last - first < NAME_VALUE_LIMIT && (IsToken(line[0]) || line[0] == '@')
    ensures !IsWs(line[e - 1]) && forall j :: e <= j < c ==> IsWs(line[j])
    ensures forall j :: c < j < first ==> IsWs(line[j])
    ensures forall j :: last <= j < |line| ==> Blank(line[j], true)
    ensures first < last ==> !IsWs(line[first]) && !Blank(line[last - 1], true)
  {
    hide IsToken;
    c := IndexOf(line, ':', 0);
    e, first := BackOver(line, 0, c, false), StepOver(line, c + 1);
    last := BackOver(line, first, |line|, true);
    BackOverStops(line, 0, c, false);
    StepOverStops(line, c + 1);
    BackOverStops(line, first, |line|, true);
    TokenIsNoBlank(line[0]);
    assert c > 0;
  }

  lemma SlicesOfLine(line: string, e: nat, c: nat, first: nat, last: nat)
    requires 0 < e <= c < first <= last <= |line| && line[c] == ':'
    ensures line == LineOf(line[..e], line[e..c], line[c + 1..first], line[first..last], line[last..])
  {
    assert line == line[..e] + line[e..c] + [line[c]] + line[c + 1..first] + line[first..last] + line[last..];
  }

  /** Every line the parser takes for a field has that layout. */
  lemma FieldLinesHaveLayout(line: string) returns (w1: string, w2: string, w3: string)
    requires line != [] && ParseLine(line).FieldLine?
    ensures var f := ParseLine(line).field;
      && f.raw == line && line == LineOf(f.name, w1, w2, f.value, w3)
      && NameShape(f.name) && ValueShape(f.value) && Blanks(w1) && Blanks(w2) && BlanksAndBreaks(w3)
      && |f.name| < NAME_VALUE_LIMIT && |f.value| < NAME_VALUE_LIMIT
  {
    hide IsToken, ParseLine;
    var e, c, first, last := FieldPlaces(line);
    w1, w2, w3 := line[e..c], line[c + 1..first], line[last..];
    SlicesOfLine(line, e, c, first, last);
    hide LineOf;
    var name, value := line[..e], line[first..last];
    assert name[|name| - 1] == line[e - 1] && name[0] == line[0];
    if value != [] {
      assert value[|value| - 1..][0] == line[last - 1] && value[0] == line[first];
    }
  }

  lemma TokenIsNoBlank(c: char)
    requires IsToken(c) || c == '@'
    ensures !IsWs(c) && c != ':'
  {
  }

  lemma {:induction false} BackOverStops(s: string, lo: nat, hi: nat, breaks: bool)
    requires lo <= hi <= |s|
    ensures var e := BackOver(s, lo, hi, breaks);
      (e > lo ==> !Blank(s[e - 1], breaks)) && forall j :: e <= j < hi ==> Blank(s[j], breaks)
    decreases hi
  {
    if hi > lo && Blank(s[hi - 1], breaks) {
      BackOverStops(s, lo, hi - 1, breaks);
    }
  }

  lemma {:induction false} StepOverStops(s: string, from: nat)
    requires from <= |s|
    ensures var e := StepOver(s, from); (e < |s| ==> !IsWs(s[e])) && forall j :: from <= j < e ==> IsWs(s[j])
    decreases |s| - from
  {
    if from < |s| && IsWs(s[from]) {
      StepOverStops(s, from + 1);
    }
  }

  /** The lines that are no fields: those that begin a line break end the header, and those
      that begin with no token character or hold no colon are tossed away. */
  lemma OtherLines(line: string)
    requires line != []
    ensures ParseLine(line).HeaderEnd? <==> line[0] == '\n' || (|line| > 1 && line[0] == '\r' && line[1] == '\n')
    ensures ParseLine(line).Garbage? <==>
      (!ParseLine(line).HeaderEnd? && ((!IsToken(line[0]) && line[0] != '@') || ':' !in line))
  {
    hide IsToken;
  }

  /** Garbage leaves no trace, a field is added in its place, and nothing counts behind the
      end of the header or a line that is too long. */
  lemma LineVerdicts(es: seq<Event>, l: string)
    requires l != []
    ensures var o := ParseEvents([Line(l)] + es);
      match ParseLine(l)
      case Garbage => o == ParseEvents(es)
      case FieldLine(f) => o == Outcome([f] + ParseEvents(es).fields, ParseEvents(es).status)
      case HeaderEnd => o == Outcome([], Finished)
      case TooLong => o == Outcome([], Failed)
  {
    hide ParseLine;
    assert ([Line(l)] + es)[1..] == es;
  }

  // ------------------------------------------------------------------ lines in a stream

  /** A field line ends at `k`: a line feed stands before and no blank behind. */
  predicate EndsAt(data: string, k: nat) {
    0 < k < |data| && data[k - 1] == LF && data[k] != ' ' && data[k] != '\t'
  }

  function ModeAt(data: string, i: nat): (m: Mode)
    requires 0 < i <= |data|
  {
    if data[i - 1] == LF then After else Inside
  }

  // From one place in a line to a later one before its end.
  lemma {:induction false} ScanOn(pre: string, data: string, i: nat, k: nat)
    requires 0 < i <= k <= |data| && forall j :: i <= j < k ==> !EndsAt(data, j)
    ensures NextEvent(true, State(ModeAt(data, i), pre + data[..i]), data[i..]) ==
            Used(NextEvent(true, State(ModeAt(data, k), pre + data[..k]), data[k..]), k - i)
    decreases k - i
  {
    if i < k {
      ScanOn(pre, data, i + 1, k);
      assert !EndsAt(data, i);
      assert data[i..][0] == data[i] && data[i..][1..] == data[i + 1..];
      assert pre + data[..i] + [data[i]] == pre + data[..i + 1];
    }
  }

  lemma ScanEnd(pre: string, data: string, k: nat)
    requires 0 < k <= |data|
    ensures EndsAt(data, k) ==>
      NextEvent(true, State(ModeAt(data, k), pre + data[..k]), data[k..]) == Got(Ok, 0, pre + data[..k], START)
    ensures k == |data| ==>
      NextEvent(true, State(ModeAt(data, k), pre + data[..k]), data[k..]) ==
        Got(Cont, 0, "", State(ModeAt(data, k), pre + data))
  {
    if k == |data| {
      assert data[k..] == "" && data[..k] == data;
    } else {
      assert data[k..][0] == data[k];
    }
  }

  // The first end of line from `i` on, or the end of the data.
  function FirstEnd(data: string, i: nat): (k: nat)
    requires i <= |data|
    ensures i <= k <= |data| && (k < |data| ==> EndsAt(data, k)) && forall j :: i <= j < k ==> !EndsAt(data, j)
    decreases |data| - i
  {
    if i == |data| || EndsAt(data, i) then i else FirstEnd(data, i + 1)
  }

  /** What one call of the scanner makes of fresh input in field mode: a first line of a
      lone line feed, or of CR and LF, ends the header; otherwise the line up to its first
      end comes out whole, continuation lines included, with one CR more if it starts with
      one; without an end everything stays pending. */
  lemma FirstLine(data: string)
    requires data != ""
    ensures data[0] == LF ==> NextEvent(true, START, data) == Got(Done, 1, "\n", START)
    ensures data[0] == CR && |data| > 1 && data[1] == LF ==> NextEvent(true, START, data) == Got(Done, 2, "\r\n", START)
    ensures data[0] != LF && data[0] != CR ==> var k := FirstEnd(data, 1);
      NextEvent(true, START, data) ==
        if k < |data| then Got(Ok, k, data[..k], START) else Got(Cont, k, "", State(ModeAt(data, k), data))
    ensures data == [CR] ==> NextEvent(true, START, data) == Got(Cont, 1, "", State(FoundCr, [CR]))
    ensures data[0] == CR && |data| > 1 && data[1] != LF ==> var k := FirstEnd(data, 2);
      NextEvent(true, START, data) ==
        if k < |data| then Got(Ok, k, [CR] + data[..k], START) else Got(Cont, k, "", State(ModeAt(data, k), [CR] + data))
  {
    if data[0] == LF {
      assert "" + [LF] == "\n";
    } else if data[0] != CR {
      OrdinaryLine(data);
    } else if data == [CR] {
      assert "" + [CR] == [CR] && data[1..] == "";
    } else if data[1] == LF {
      SecondByteEnds(data);
    } else {
      CrLine(data);
    }
  }

  lemma OrdinaryLine(data: string)
    requires data != "" && data[0] != LF && data[0] != CR
    ensures var k := FirstEnd(data, 1);
      NextEvent(true, START, data) ==
        if k < |data| then Got(Ok, k, data[..k], START) else Got(Cont, k, "", State(ModeAt(data, k), data))
  {
    var k := FirstEnd(data, 1);
    assert data[..1] == [data[0]] && "" + data[..1] == "" + [data[0]];
    ScanOn("", data, 1, k);
    ScanEnd("", data, k);
    assert "" + data[..k] == data[..k] && "" + data == data;
  }

  lemma CrLine(data: string)
    requires |data| > 1 && data[0] == CR && data[1] != LF
    ensures var k := FirstEnd(data, 2);
      NextEvent(true, START, data) ==
        if k < |data| then Got(Ok, k, [CR] + data[..k], START) else Got(Cont, k, "", State(ModeAt(data, k), [CR] + data))
  {
    var k := FirstEnd(data, 2);
    assert data[1..][0] == data[1] && data[1..][1..] == data[2..];
    assert [CR] + ("" + [CR]) + [data[1]] == [CR] + data[..2];
    ScanOn([CR], data, 2, k);
    ScanEnd([CR], data, k);
  }

  lemma SecondByteEnds(data: string)
    requires |data| > 1 && data[0] == CR && data[1] == LF
    ensures NextEvent(true, START, data) == Got(Done, 2, "\r\n", START)
  {
    assert data[1..][0] == LF;
    assert "" + [CR] == [CR] && [CR] + [LF] == "\r\n";
    assert NextEvent(true, State(FoundCr, [CR]), data[1..]) == Got(Done, 1, [CR] + [LF], START);
  }

  /** In line mode a line ends with its first line feed. */
  lemma {:induction false} PlainLine(line: string, data: string, k: nat)
    requires k < |data| && data[k] == LF && forall j :: 0 <= j < k ==> data[j] != LF
    ensures NextEvent(false, State(Inside, line), data) == Got(Ok, k + 1, line + data[..k + 1], START)
    decreases k
  {
    if k == 0 {
      assert data[..1] == [LF];
    } else {
      assert data[1..][k - 1] == LF;
      PlainLine(line + [data[0]], data[1..], k - 1);
      assert line + [data[0]] + data[1..][..k] == line + data[..k + 1];
    }
  }
}

module UrlDigest {
  // The byte stream a URL digest is taken over: components are unescaped piece by piece into
  // a 512-byte buffer that is flushed whenever it is full.

  import opened HttpChars
  import opened UrlParse

  const BUFSIZE := 512

  function Folded(c: char, lower: bool): (d: char) {
    if lower then ToLower(c) else c
  }

  // -------------------------------------------------------------------- the machine

  /** Where unescaping stands: 0 between characters, 1 behind '%', 2 behind '%' and a digit,
      3 when a digit is owed. */
  datatype Pos = Pos(i: nat, st: nat)

  predicate PosOk(s: string, p: Pos) {
    && p.i <= |s| && p.st <= 3 && (p.st == 1 || p.st == 3 ==> p.i >= 1) && (p.st == 2 ==> p.i >= 2)
    && (p.st == 2 ==> IsHex(s[p.i - 1]))
  }

  datatype Turn = Turn(out: string, p: Pos)

  /** One turn of the loop; at most one character comes out. */
  function Next(s: string, p: Pos, lower: bool): (t: Turn)
    requires PosOk(s, p) && p.i < |s|
    ensures PosOk(s, t.p) && |t.out| <= 1 && Left(s, t.p) < Left(s, p)
    ensures t.p.st == 3 ==> |t.out| == 1 && t.p.i == p.i && !IsHex(s[p.i]) && p.i >= 2 && IsHex(s[p.i - 1])
    ensures t.out != "" ==> t.p.st == 0 || t.p.st == 3
    ensures p.i <= t.p.i
  {
    var c := s[p.i];
    if p.st == 0 then
      if c == '%' then Turn("", Pos(p.i + 1, 1)) else Turn([Folded(c, lower)], Pos(p.i + 1, 0))
    else if p.st == 1 then
      if IsHex(c) then Turn("", Pos(p.i + 1, 2)) else Turn([Folded(s[p.i - 1], lower)], Pos(p.i, 0))
    else if p.st == 2 then
      if IsHex(c) then Turn([(HexValue(s[p.i - 1]) * 16 + HexValue(c)) as char], Pos(p.i + 1, 0))
      else Turn([Folded(s[p.i - 2], lower)], Pos(p.i, 3))
    else Turn([Folded(s[p.i - 1], lower)], Pos(p.i, 0))
  }

  /** Turns left at most. */
  function Left(s: string, p: Pos): (n: int) {
    3 * (|s| - p.i) + (if p.st == 0 then 0 else if p.st == 2 then 2 else 1)
  }

  /** Everything that comes out of the rest of `s` when there is always room. */
  function Run(s: string, p: Pos, lower: bool): (t: string)
    requires PosOk(s, p)
    decreases Left(s, p)
  {
    if p.i == |s| then "" else var n := Next(s, p, lower); n.out + Run(s, n.p, lower)
  }

  /** The loop of both functions: until the text ends or `room` characters came out. */
  function Loop(s: string, p: Pos, room: nat, lower: bool): (t: Turn)
    requires PosOk(s, p)
    ensures PosOk(s, t.p) && |t.out| <= room && (t.p.i == |s| || |t.out| == room)
    ensures room > 0 && p.i < |s| ==> Left(s, t.p) < Left(s, p)
    ensures t.p.i < |s| && room > 0 ==> t.p.st == 0 || t.p.st == 3
    ensures Left(s, t.p) <= Left(s, p) && p.i <= t.p.i
    decreases Left(s, p)
  {
    if p.i == |s| || room == 0 then Turn("", p)
    else
      var n := Next(s, p, lower);
      var r := Loop(s, n.p, room - |n.out|, lower);
      Turn(n.out + r.out, r.p)
  }

  function Least(a: int, b: int): (m: int) {
    if a < b then a else b
  }

  /** One call. `unescape_str` first copies up to the next '%', whatever the state;
      `unescape_str_tolower` does not. Calls start between characters or owing a digit. */
  function Call(s: string, p: Pos, room: nat, lower: bool): (t: Turn)
    requires PosOk(s, p) && (p.st == 0 || p.st == 3) && p.i < |s| && room > 0
    ensures PosOk(s, t.p) && Left(s, t.p) < Left(s, p) && p.i <= t.p.i
    ensures |t.out| <= room && (t.p.i == |s| || |t.out| == room)
    ensures t.p.i < |s| ==> t.p.st == 0 || t.p.st == 3
  {
    if lower then Loop(s, p, room, true)
    else
      var k := IndexOf(s, '%', p.i) - p.i;
      var min := Least(|s| - p.i, room);
      if k >= min then Turn(s[p.i..p.i + min], Pos(p.i + min, p.st))
      else
        var r := Loop(s, Pos(p.i + k, p.st), room - k, false);
        Turn(s[p.i..p.i + k] + r.out, r.p)
  }

  /** What one component adds to the stream when `room` bytes of the buffer are free: the
      buffer is flushed each time it is full. */
  function Component(s: string, p: Pos, room: nat, lower: bool): (t: string)
    requires PosOk(s, p) && 0 < room <= BUFSIZE && (p.i < |s| ==> p.st == 0 || p.st == 3)
    decreases Left(s, p)
  {
    if p.i == |s| then ""
    else
      var c := Call(s, p, room, lower);
      c.out + Component(s, c.p, if |c.out| == room then BUFSIZE else room - |c.out|, lower)
  }

  // --------------------------------------------------- when flush points do not matter

  /** The machine comes to owe a digit before a character other than '%': an escape whose
      second digit is missing. */
  predicate Broken(s: string, p: Pos)
    requires PosOk(s, p)
    decreases Left(s, p)
  {
    p.i < |s| && ((p.st == 3 && s[p.i] != '%') || Broken(s, Next(s, p, false).p))
  }

  // Stopping the loop and going on later changes nothing.
  lemma {:induction false} LoopRun(s: string, p: Pos, room: nat, lower: bool)
    requires PosOk(s, p)
    ensures var t := Loop(s, p, room, lower); Run(s, p, lower) == t.out + Run(s, t.p, lower)
    decreases Left(s, p)
  {
    hide Next;
    if p.i < |s| && room > 0 {
      var n := Next(s, p, lower);
      LoopRun(s, n.p, room - |n.out|, lower);
      var r := Loop(s, n.p, room - |n.out|, lower);
      Assoc(n.out, r.out, Run(s, r.p, lower));
    } else {
      assert "" + Run(s, p, lower) == Run(s, p, lower);
    }
  }

  lemma Assoc(a: string, b: string, c: string)
    ensures a + (b + c) == a + b + c
  {
  }

  lemma {:induction false} LoopStaysWhole(s: string, p: Pos, room: nat)
    requires PosOk(s, p) && !Broken(s, p)
    ensures !Broken(s, Loop(s, p, room, false).p)
    decreases Left(s, p)
  {
    hide Next;
    if p.i < |s| && room > 0 {
      var n := Next(s, p, false);
      LoopStaysWhole(s, n.p, room - |n.out|);
    }
  }

  // Copying up to '%' is what state 0 does anyway.
  lemma {:induction false} CopyIsLoop(s: string, i: nat, c: string, room: nat)
    requires i + |c| <= |s| && |c| <= room && forall j :: 0 <= j < |c| ==> c[j] == s[i + j] && c[j] != '%'
    ensures var t := Loop(s, Pos(i + |c|, 0), room - |c|, false);
      Loop(s, Pos(i, 0), room, false) == Turn(c + t.out, t.p)
    decreases |c|
  {
    hide Loop, Left, Next;
    var t := Loop(s, Pos(i + |c|, 0), room - |c|, false);
    if c == "" {
      assert c + t.out == t.out;
    } else {
      assert c[0] == s[i + 0];
      PlainTurn(s, i, room);
      CopyIsLoop(s, i + 1, c[1..], room - 1);
      Assoc([s[i]], c[1..], t.out);
      assert [s[i]] + c[1..] == c;
    }
  }

  lemma PlainTurn(s: string, i: nat, room: nat)
    requires i < |s| && s[i] != '%' && room > 0
    ensures var r := Loop(s, Pos(i + 1, 0), room - 1, false); Loop(s, Pos(i, 0), room, false) == Turn([s[i]] + r.out, r.p)
  {
  }

  /** A call does what the loop alone would do, unless it starts owing a digit before a
      character other than '%'. */
  lemma CallIsLoop(s: string, p: Pos, room: nat, lower: bool)
    requires PosOk(s, p) && (p.st == 0 || p.st == 3) && p.i < |s| && room > 0
    requires lower || p.st == 0 || s[p.i] == '%'
    ensures Call(s, p, room, lower) == Loop(s, p, room, lower)
  {
    hide Call;
    if lower {
      CallFolding(s, p, room);
    } else if p.st == 3 {
      CallOwing(s, p, room);
    } else {
      CallCopying(s, p.i, room);
    }
  }

  lemma CallFolding(s: string, p: Pos, room: nat)
    requires PosOk(s, p) && (p.st == 0 || p.st == 3) && p.i < |s| && room > 0
    ensures Call(s, p, room, true) == Loop(s, p, room, true)
  {
    hide Loop;
  }

  lemma CallOwing(s: string, p: Pos, room: nat)
    requires PosOk(s, p) && p.st == 3 && p.i < |s| && room > 0 && s[p.i] == '%'
    ensures Call(s, p, room, false) == Loop(s, p, room, false)
  {
    hide Loop, Left, Next, HexValue;
    var r := Loop(s, p, room, false);
    assert IndexOf(s, '%', p.i) == p.i && s[p.i..p.i] == "" && "" + r.out == r.out;
  }

  lemma CallCopying(s: string, i: nat, room: nat)
    requires i < |s| && room > 0
    ensures Call(s, Pos(i, 0), room, false) == Loop(s, Pos(i, 0), room, false)
  {
    hide Loop, Left, Next, HexValue, IndexOf;
    var k, min := IndexOf(s, '%', i) - i, Least(|s| - i, room);
    var n := if k < min then k else min;
    var c := s[i..i + n];
    assert forall j :: 0 <= j < |c| ==> c[j] == s[i + j] && c[j] != '%';
    CopyIsLoop(s, i, c, room);
    if k >= min {
      LoopStops(s, Pos(i + n, 0), room - n);
      assert c + "" == c;
    }
  }

  lemma LoopStops(s: string, p: Pos, room: nat)
    requires PosOk(s, p) && (p.i == |s| || room == 0)
    ensures Loop(s, p, room, false) == Turn("", p)
  {
  }

  /** Without a broken escape the stream does not depend on the flush points. */
  lemma {:induction false} FlushesDoNotMatter(s: string, p: Pos, room: nat, lower: bool)
    requires PosOk(s, p) && 0 < room <= BUFSIZE && (p.i < |s| ==> p.st == 0 || p.st == 3)
    requires lower || !Broken(s, p)
    ensures Component(s, p, room, lower) == Run(s, p, lower)
    decreases Left(s, p)
  {
    if p.i < |s| {
      hide Next, Loop, Run, Broken, IndexOf;
      CallIsLoop(s, p, room, lower);
      LoopRun(s, p, room, lower);
      if !lower {
        LoopStaysWhole(s, p, room);
      }
      var c := Call(s, p, room, lower);
      FlushesDoNotMatter(s, c.p, if |c.out| == room then BUFSIZE else room - |c.out|, lower);
    }
  }

  /** The characters that come out before the first broken escape. */
  function Until(s: string, p: Pos): (n: nat)
    requires PosOk(s, p) && Broken(s, p)
    decreases Left(s, p)
  {
    if p.st == 3 && s[p.i] != '%' then 0
    else var t := Next(s, p, false); |t.out| + Until(s, t.p)
  }

  // As long as fewer characters are asked for than come before the broken escape, the loop
  // stops before it; asked for exactly that many, it stops at it.
  lemma {:induction false} LoopTowards(s: string, p: Pos, room: nat)
    requires PosOk(s, p) && Broken(s, p) && 0 < room <= Until(s, p)
    ensures var t := Loop(s, p, room, false); t.p.i < |s| && Broken(s, t.p) && Until(s, t.p) == Until(s, p) - room
    ensures var t := Loop(s, p, room, false); |t.out| == room
    ensures var t := Loop(s, p, room, false);
      Until(s, t.p) == 0 ==> t.p.st == 3 && s[t.p.i] != '%' && !IsHex(s[t.p.i]) && IsHex(s[t.p.i - 1])
    decreases Left(s, p)
  {
    hide Next, PosOk, HexValue;
    var n := Next(s, p, false);
    if room - |n.out| == 0 {
      LoopStops(s, n.p, 0);
      assert n.out + "" == n.out;
      StopsOwing(s, n.p);
    } else {
      LoopTowards(s, n.p, room - |n.out|);
    }
  }

  // Unless a digit is owed, something comes out before the broken escape.
  lemma {:induction false} StopsOwing(s: string, p: Pos)
    requires PosOk(s, p) && Broken(s, p)
    ensures Until(s, p) == 0 ==> p.st == 3 && s[p.i] != '%'
    decreases Left(s, p)
  {
    if p.st != 3 {
      StopsOwing(s, Next(s, p, false).p);
    }
  }

  /** A flush exactly at a broken escape changes the stream. */
  lemma {:induction false} FlushAtBroken(s: string, p: Pos, room: nat)
    requires PosOk(s, p) && p.i < |s| && Broken(s, p) && (p.st == 0 || (p.st == 3 && s[p.i] == '%'))
    requires 0 < room <= BUFSIZE && room <= Until(s, p) && (Until(s, p) - room) % BUFSIZE == 0
    ensures Component(s, p, room, false) != Run(s, p, false)
    decreases Left(s, p)
  {
    hide Loop, Until, Broken, Next, IndexOf;
    CallIsLoop(s, p, room, false);
    LoopTowards(s, p, room);
    LoopRun(s, p, room, false);
    var c := Call(s, p, room, false);
    var n := Until(s, c.p);
    if n == 0 {
      OwedIsSkipped(s, c.p);
    } else {
      NotBrokenYet(s, c.p);
      FlushAtBroken(s, c.p, BUFSIZE);
    }
    var a, b := Component(s, c.p, BUFSIZE, false), Run(s, c.p, false);
    PrefixCancels(c.out, a, b);
  }

  lemma PrefixCancels(c: string, a: string, b: string)
    ensures c + a == c + b <==> a == b
  {
    assert (c + a)[|c|..] == a && (c + b)[|c|..] == b;
  }

  lemma NotBrokenYet(s: string, p: Pos)
    requires PosOk(s, p) && Broken(s, p) && Until(s, p) > 0
    ensures p.st == 3 ==> s[p.i] == '%'
  {
  }

  // A call that starts owing a digit before a character other than '%' puts that character
  // first; the machine puts the digit first.
  lemma OwedIsSkipped(s: string, p: Pos)
    requires PosOk(s, p) && p.st == 3 && p.i < |s| && s[p.i] != '%' && !IsHex(s[p.i]) && IsHex(s[p.i - 1])
    ensures Component(s, p, BUFSIZE, false) != Run(s, p, false)
  {
    CopiesFirst(s, p);
    var c, n := Call(s, p, BUFSIZE, false), Next(s, p, false);
    hide Call, Next, Loop;
    assert Component(s, p, BUFSIZE, false)[0] == c.out[0];
    assert Run(s, p, false)[0] == n.out[0];
  }

  lemma CopiesFirst(s: string, p: Pos)
    requires PosOk(s, p) && p.st == 3 && p.i < |s| && s[p.i] != '%'
    ensures var c := Call(s, p, BUFSIZE, false); |c.out| > 0 && c.out[0] == s[p.i]
    ensures var n := Next(s, p, false); |n.out| > 0 && n.out[0] == s[p.i - 1]
  {
    hide Loop;
    assert IndexOf(s, '%', p.i) > p.i;
  }

  /** The stream of a component is the same for every fill of the buffer exactly when it
      holds no broken escape. */
  lemma SameForEveryFillIff(s: string)
    ensures (forall room :: 0 < room <= BUFSIZE ==> Component(s, Pos(0, 0), room, false) == Run(s, Pos(0, 0), false))
            <==> !Broken(s, Pos(0, 0))
  {
    var p := Pos(0, 0);
    if Broken(s, p) {
      StopsOwing(s, p);
      var n := Until(s, p);
      var room := (n - 1) % BUFSIZE + 1;
      assert n - room == (n - 1) / BUFSIZE * BUFSIZE;
      FlushAtBroken(s, p, room);
    } else {
      forall room | 0 < room <= BUFSIZE
        ensures Component(s, p, room, false) == Run(s, p, false)
      {
        FlushesDoNotMatter(s, p, room, false);
      }
    }
  }

  // ------------------------------------------------------------------ valid escapes

  /** Every '%' is followed by two hexadecimal digits. */
  predicate ValidEscapes(s: string, i: nat)
    requires i <= |s|
    decreases |s| - i
  {
    if i == |s| then true
    else if s[i] != '%' then ValidEscapes(s, i + 1)
    else i + 2 < |s| && IsHex(s[i + 1]) && IsHex(s[i + 2]) && ValidEscapes(s, i + 3)
  }

  /** The text a validly escaped string stands for (section 2.1 of RFC 3986). */
  function Decoded(s: string, i: nat, lower: bool): (t: string)
    requires i <= |s| && ValidEscapes(s, i)
    decreases |s| - i
  {
    if i == |s| then ""
    else if s[i] != '%' then [Folded(s[i], lower)] + Decoded(s, i + 1, lower)
    else [(HexValue(s[i + 1]) * 16 + HexValue(s[i + 2])) as char] + Decoded(s, i + 3, lower)
  }

  lemma ValidIsDecoded(s: string, i: nat, lower: bool)
    requires i <= |s| && ValidEscapes(s, i)
    ensures Run(s, Pos(i, 0), lower) == Decoded(s, i, lower) && !Broken(s, Pos(i, 0))
  {
    RunIsMeaning(s, i, lower);
    ValidMeans(s, i, lower);
    ValidIsWhole(s, i);
  }

  lemma {:induction false} ValidMeans(s: string, i: nat, lower: bool)
    requires i <= |s| && ValidEscapes(s, i)
    ensures Meaning(s, i, lower) == Decoded(s, i, lower)
    decreases |s| - i
  {
    hide HexValue;
    if i < |s| {
      ValidMeans(s, if s[i] == '%' then i + 3 else i + 1, lower);
    }
  }

  lemma {:induction false} ValidIsWhole(s: string, i: nat)
    requires i <= |s| && ValidEscapes(s, i)
    ensures !Broken(s, Pos(i, 0))
    decreases |s| - i
  {
    hide HexValue;
    if i < |s| {
      if s[i] == '%' {
        ValidIsWhole(s, i + 3);
        EscapeTurns(s, i, false);
      } else {
        ValidIsWhole(s, i + 1);
      }
    }
  }

  // Three turns for one escape.
  lemma EscapeTurns(s: string, i: nat, lower: bool)
    requires i + 2 < |s| && s[i] == '%' && IsHex(s[i + 1]) && IsHex(s[i + 2])
    ensures Run(s, Pos(i, 0), lower) ==
            [(HexValue(s[i + 1]) * 16 + HexValue(s[i + 2])) as char] + Run(s, Pos(i + 3, 0), lower)
    ensures Broken(s, Pos(i, 0)) <==> Broken(s, Pos(i + 3, 0))
  {
    var p1, p2 := Pos(i + 1, 1), Pos(i + 2, 2);
    assert Next(s, Pos(i, 0), lower) == Turn("", p1) && Next(s, p1, lower) == Turn("", p2);
    assert Run(s, Pos(i, 0), lower) == "" + Run(s, p1, lower) == "" + ("" + Run(s, p2, lower));
    assert Broken(s, Pos(i, 0)) == Broken(s, p1) == Broken(s, p2);
  }

  lemma {:induction false} NoEscapes(s: string, i: nat)
    requires i <= |s| && forall j :: i <= j < |s| ==> s[j] != '%'
    ensures ValidEscapes(s, i) && Decoded(s, i, false) == s[i..]
    ensures Decoded(s, i, true) == Lower(s)[i..]
    decreases |s| - i
  {
    if i < |s| {
      NoEscapes(s, i + 1);
      assert s[i..] == [s[i]] + s[i + 1..];
      assert Lower(s)[i..] == [Lower(s)[i]] + Lower(s)[i + 1..];
    }
  }

  // ------------------------------------------------------------------- every text

  /** What any text is unescaped to: valid escapes become their byte; a '%' without a digit
      and a '%' with one digit only stay; an escape cut off by the end is dropped. */
  function Meaning(s: string, i: nat, lower: bool): (t: string)
    requires i <= |s|
    decreases |s| - i
  {
    if i == |s| then ""
    else if s[i] != '%' then [Folded(s[i], lower)] + Meaning(s, i + 1, lower)
    else if i + 1 == |s| then ""
    else if !IsHex(s[i + 1]) then "%" + Meaning(s, i + 1, lower)
    else if i + 2 == |s| then ""
    else if !IsHex(s[i + 2]) then "%" + [Folded(s[i + 1], lower)] + Meaning(s, i + 2, lower)
    else [(HexValue(s[i + 1]) * 16 + HexValue(s[i + 2])) as char] + Meaning(s, i + 3, lower)
  }

  /** The machine gives every text its meaning. */
  lemma {:induction false} RunIsMeaning(s: string, i: nat, lower: bool)
    requires i <= |s|
    ensures Run(s, Pos(i, 0), lower) == Meaning(s, i, lower)
    decreases |s| - i
  {
    hide HexValue;
    if i < |s| {
      if s[i] != '%' {
        RunIsMeaning(s, i + 1, lower);
      } else if i + 1 < |s| && !IsHex(s[i + 1]) {
        RunIsMeaning(s, i + 1, lower);
        LonePercentTurns(s, i, lower);
      } else if i + 2 < |s| && !IsHex(s[i + 2]) {
        RunIsMeaning(s, i + 2, lower);
        OneDigitTurns(s, i, lower);
      } else if i + 2 < |s| {
        RunIsMeaning(s, i + 3, lower);
        EscapeTurns(s, i, lower);
      } else {
        CutOffTurns(s, i, lower);
      }
    }
  }

  lemma LonePercentTurns(s: string, i: nat, lower: bool)
    requires i + 1 < |s| && s[i] == '%' && !IsHex(s[i + 1])
    ensures Run(s, Pos(i, 0), lower) == "%" + Run(s, Pos(i + 1, 0), lower)
  {
    var p1 := Pos(i + 1, 1);
    assert Next(s, Pos(i, 0), lower) == Turn("", p1) && Next(s, p1, lower) == Turn("%", Pos(i + 1, 0));
    assert Run(s, Pos(i, 0), lower) == "" + Run(s, p1, lower);
  }

  lemma OneDigitTurns(s: string, i: nat, lower: bool)
    requires i + 2 < |s| && s[i] == '%' && IsHex(s[i + 1]) && !IsHex(s[i + 2])
    ensures Run(s, Pos(i, 0), lower) == "%" + [Folded(s[i + 1], lower)] + Run(s, Pos(i + 2, 0), lower)
  {
    hide HexValue;
    var p1, p2, p3, r := Pos(i + 1, 1), Pos(i + 2, 2), Pos(i + 2, 3), Run(s, Pos(i + 2, 0), lower);
    var d := [Folded(s[i + 1], lower)];
    assert Next(s, Pos(i, 0), lower) == Turn("", p1) && Next(s, p1, lower) == Turn("", p2);
    assert Next(s, p2, lower) == Turn("%", p3) && Next(s, p3, lower) == Turn(d, Pos(i + 2, 0));
    assert Run(s, p3, lower) == d + r && Run(s, p2, lower) == "%" + (d + r);
    assert Run(s, p1, lower) == "" + ("%" + (d + r)) && Run(s, Pos(i, 0), lower) == "" + Run(s, p1, lower);
  }

  lemma CutOffTurns(s: string, i: nat, lower: bool)
    requires i < |s| <= i + 2 && s[i] == '%' && (i + 1 < |s| ==> IsHex(s[i + 1]))
    ensures Run(s, Pos(i, 0), lower) == ""
  {
    var p1 := Pos(i + 1, 1);
    assert Next(s, Pos(i, 0), lower) == Turn("", p1) && Run(s, Pos(i, 0), lower) == "" + Run(s, p1, lower);
    if i + 1 < |s| {
      assert Next(s, p1, lower) == Turn("", Pos(i + 2, 2)) && Run(s, p1, lower) == "" + Run(s, Pos(i + 2, 2), lower);
    }
  }

  /** One escape that lacks its second digit: with one free byte in the buffer the digit
      found is lost. */
  lemma BrokenEscapeExample(s: string)
    requires s == "%az"
    ensures Broken(s, Pos(0, 0)) && Run(s, Pos(0, 0), false) == "%az" && Component(s, Pos(0, 0), 1, false) == "%z"
  {
    hide HexValue, Loop, Call, Run, IndexOf;
    RunIsMeaning(s, 0, false);
    ExampleMeaning(s);
    ExampleTurns(s);
    assert Broken(s, Pos(2, 2));
    ExampleCalls(s);
    var p3 := Pos(2, 3);
    assert Component(s, p3, BUFSIZE, false) == "z" + "";
    assert Component(s, Pos(0, 0), 1, false) == "%" + Component(s, p3, BUFSIZE, false);
  }

  lemma ExampleMeaning(s: string)
    requires s == "%az"
    ensures Meaning(s, 0, false) == "%az"
  {
    assert Meaning(s, 2, false) == "z";
  }

  lemma ExampleCalls(s: string)
    requires s == "%az"
    ensures Call(s, Pos(0, 0), 1, false) == Turn("%", Pos(2, 3))
    ensures Call(s, Pos(2, 3), BUFSIZE, false) == Turn("z", Pos(3, 3))
  {
    hide HexValue, Next;
    ExampleTurns(s);
    var p0, p1, p2, p3 := Pos(0, 0), Pos(1, 1), Pos(2, 2), Pos(2, 3);
    CallIsLoop(s, p0, 1, false);
    LoopStops(s, p3, 0);
    assert Loop(s, p2, 1, false) == Turn("%" + "", p3);
    assert Loop(s, p1, 1, false) == Turn("" + "%", p3);
    assert IndexOf(s, '%', 2) == 3 && s[2..3] == "z";
  }

  lemma ExampleTurns(s: string)
    requires s == "%az"
    ensures Next(s, Pos(0, 0), false) == Turn("", Pos(1, 1)) && Next(s, Pos(1, 1), false) == Turn("", Pos(2, 2))
    ensures Next(s, Pos(2, 2), false) == Turn("%", Pos(2, 3)) && Next(s, Pos(2, 3), false) == Turn("a", Pos(2, 0))
    ensures Next(s, Pos(2, 0), false) == Turn("z", Pos(3, 0))
  {
  }
}

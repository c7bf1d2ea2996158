/** Percent escaping by table and the unescaping machine, on bytes as bit vectors. */
module UriEscape {

  const PERCENT: bv8 := 37
  const QMARK: bv8 := 63

  /** A table: eight words, one bit for each byte value. */
  datatype Table = Table(w0: bv32, w1: bv32, w2: bv32, w3: bv32, w4: bv32, w5: bv32, w6: bv32, w7: bv32)
  {
    /** The word for a byte: escape[c >> 5]. */
    function Word(c: bv8): (w: bv32) {
      if c < 32 then w0 else if c < 64 then w1 else if c < 96 then w2 else if c < 128 then w3
      else if c < 160 then w4 else if c < 192 then w5 else if c < 224 then w6 else w7
    }
  }

  predicate Escapes(t: Table, c: bv8) {
    (t.Word(c) >> ((c & 0x1f) as bv32)) & 1 == 1
  }

  const ALL: bv32 := 0xffff_ffff
  const Uri := Table(ALL, 0x8000_0029, 0, 0x8000_0000, ALL, ALL, ALL, ALL)
  const Args := Table(ALL, 0x8800_0869, 0, 0x8000_0000, ALL, ALL, ALL, ALL)
  const UriComponent := Table(ALL, 0xfc00_9fff, 0x7800_0001, 0xb800_0001, ALL, ALL, ALL, ALL)
  const Html := Table(ALL, 0x0000_00ad, 0, 0x8000_0000, ALL, ALL, ALL, ALL)
  const Refresh := Table(ALL, 0x0000_0085, 0, 0x8000_0000, ALL, ALL, ALL, ALL)
  const Memcached := Table(ALL, 0x0000_0021, 0, 0, 0, 0, 0, 0)

  /** Every table but the one for refresh headers escapes '%'. */
  lemma TablesEscapePercent()
    ensures Escapes(Uri, PERCENT) && Escapes(Args, PERCENT) && Escapes(UriComponent, PERCENT)
    ensures Escapes(Html, PERCENT) && Escapes(Memcached, PERCENT) && !Escapes(Refresh, PERCENT)
  {
  }

  /** Controls, and everything from 127 on. */
  predicate NotPrinted(c: bv8) {
    c < 32 || c >= 127
  }

  predicate Unreserved(c: bv8) {
    97 <= c <= 122 || 65 <= c <= 90 || 48 <= c <= 57 || c == 45 || c == 46 || c == 95 || c == 126
  }

  /** Which bytes each table escapes: besides what is not printed, the marks space (32),
      quote (34), '#' (35), '%' (37), '&' (38), apostrophe (39), '+' (43), ';' (59) and '?'
      (63) as listed; for a component all but letters, digits, '-', '.', '_' and '~'. */
  lemma UriByCharacters(c: bv8)
    ensures Escapes(Uri, c) <==> NotPrinted(c) || c == 32 || c == 35 || c == 37 || c == 63
  {
  }

  lemma ArgsByCharacters(c: bv8)
    ensures Escapes(Args, c) <==> NotPrinted(c) || c == 32 || c == 35 || c == 37 || c == 38 || c == 43 || c == 59 || c == 63
  {
  }

  lemma ComponentByCharacters(c: bv8)
    ensures Escapes(UriComponent, c) <==> !Unreserved(c)
  {
  }

  lemma OthersByCharacters(c: bv8)
    ensures Escapes(Html, c) <==> NotPrinted(c) || c == 32 || c == 34 || c == 35 || c == 37 || c == 39
    ensures Escapes(Refresh, c) <==> NotPrinted(c) || c == 32 || c == 34 || c == 39
    ensures Escapes(Memcached, c) <==> c < 32 || c == 32 || c == 37
  {
  }

  // ---------------------------------------------------------------------- escaping

  /** The hex digits used: lower case. */
  function Hex(v: bv8): (c: bv8)
    requires v < 16
  {
    if v < 10 then 48 + v else 87 + v
  }

  lemma Nibbles(c: bv8)
    ensures c >> 4 < 16 && c & 0xf < 16 && ((c >> 4) << 4) + (c & 0xf) == c
  {
  }

  function EscapeOne(t: Table, c: bv8): (e: seq<bv8>) {
    Nibbles(c);
    if Escapes(t, c) then [PERCENT, Hex(c >> 4), Hex(c & 0xf)] else [c]
  }

  function Escape(t: Table, s: seq<bv8>): (e: seq<bv8>) {
    if |s| == 0 then [] else EscapeOne(t, s[0]) + Escape(t, s[1..])
  }

  function Count(t: Table, s: seq<bv8>): (n: nat) {
    if |s| == 0 then 0 else (if Escapes(t, s[0]) then 1 else 0) + Count(t, s[1..])
  }

  /** The room needed is known from counting. */
  lemma {:induction false} EscapedLength(t: Table, s: seq<bv8>)
    ensures |Escape(t, s)| == |s| + 2 * Count(t, s)
  {
    hide Escapes;
    if |s| > 0 {
      EscapedLength(t, s[1..]);
    }
  }

  /** `oc_escape_uri` without a destination: how many characters need escaping. */
  method CountEscapes(t: Table, src: seq<bv8>) returns (n: nat)
    ensures n == Count(t, src)
  {
    hide Escapes;
    n := 0;
    var i := 0;
    assert src[0..] == src;
    while i < |src|
      invariant 0 <= i <= |src| && n + Count(t, src[i..]) == Count(t, src)
    {
      assert src[i..][1..] == src[i + 1..];
      if Escapes(t, src[i]) {
        n := n + 1;
      }
      i := i + 1;
    }
  }

  /** `oc_escape_uri`. */
  method EscapeUri(t: Table, src: seq<bv8>) returns (dst: seq<bv8>)
    ensures dst == Escape(t, src)
  {
    hide Escapes, Hex;
    dst := [];
    var i := 0;
    assert src[0..] == src;
    while i < |src|
      invariant 0 <= i <= |src| && dst + Escape(t, src[i..]) == Escape(t, src)
    {
      assert src[i..][1..] == src[i + 1..];
      assert dst + (EscapeOne(t, src[i]) + Escape(t, src[i + 1..])) == (dst + EscapeOne(t, src[i])) + Escape(t, src[i + 1..]);
      Nibbles(src[i]);
      if Escapes(t, src[i]) {
        dst := dst + [PERCENT, Hex(src[i] >> 4), Hex(src[i] & 0xf)];
      } else {
        dst := dst + [src[i]];
      }
      i := i + 1;
    }
  }

  // -------------------------------------------------------------------- unescaping

  /** What is being unescaped: nothing special (type 0), a URI, or a redirect target. */
  datatype Mode = Mode(uri: bool, redirect: bool)

  const PLAIN := Mode(false, false)

  predicate IsDigit(c: bv8) {
    48 <= c <= 57
  }

  /** A letter from a to f once bit 0x20 is set. */
  predicate IsLetter(c: bv8) {
    97 <= (c | 0x20) <= 102
  }

  predicate IsHex(c: bv8) {
    IsDigit(c) || IsLetter(c)
  }

  function Digit(c: bv8): (v: bv8) {
    if IsDigit(c) then c - 48 else (c | 0x20) - 87
  }

  /** One character in state `st`: what comes out, the next state, and whether to stop. */
  datatype Turn = Turn(out: seq<bv8>, st: nat, decoded: bv8, stop: bool)

  function Next(prev: bv8, c: bv8, st: nat, decoded: bv8, m: Mode): (t: Turn)
    requires st <= 2
    ensures t.st <= 2
  {
    if st == 0 then
      if c == QMARK && (m.uri || m.redirect) then Turn([c], 0, decoded, true)
      else if c == PERCENT then Turn([], 1, decoded, false)
      else Turn([c], 0, decoded, false)
    else if st == 1 then
      if IsHex(c) then Turn([], 2, Digit(c), false) else Turn([c], 0, decoded, false)
    else if !IsHex(c) then Turn([], 0, decoded, false)
    else
      var ch := (decoded << 4) + Digit(c);
      if !IsDigit(c) && (m.uri || m.redirect) && ch == QMARK then Turn([ch], 0, decoded, true)
      else if m.redirect && !(m.uri && !IsDigit(c)) && !(PERCENT < ch < 0x7f) then Turn([PERCENT, prev, c], 0, decoded, false)
      else Turn([ch], 0, decoded, false)
  }

  function Unescape(e: seq<bv8>, i: nat, st: nat, decoded: bv8, m: Mode): (s: seq<bv8>)
    requires i <= |e| && st <= 2
    decreases |e| - i
  {
    if i == |e| then []
    else
      var t := Next(if i > 0 then e[i - 1] else 0, e[i], st, decoded, m);
      if t.stop then t.out else t.out + Unescape(e, i + 1, t.st, t.decoded, m)
  }

  /** `oc_unescape_uri`. */
  method UnescapeUri(src: seq<bv8>, m: Mode) returns (dst: seq<bv8>, used: nat)
    ensures dst == Unescape(src, 0, 0, 0, m) && used <= |src|
  {
    hide Next;
    dst := [];
    var st, decoded := 0, 0;
    used := 0;
    while used < |src|
      invariant used <= |src| && 0 <= st <= 2
      invariant dst + Unescape(src, used, st, decoded, m) == Unescape(src, 0, 0, 0, m)
    {
      var t := Next(if used > 0 then src[used - 1] else 0, src[used], st, decoded, m);
      if t.stop {
        return dst + t.out, used + 1;
      }
      ghost var rest := Unescape(src, used + 1, t.st, t.decoded, m);
      assert dst + (t.out + rest) == (dst + t.out) + rest;
      dst := dst + t.out;
      st, decoded := t.st, t.decoded;
      used := used + 1;
    }
  }

  // -------------------------------------------------------------- by texts, not by turns

  const HEX_LOWER: seq<bv8> := [48, 49, 50, 51, 52, 53, 54, 55, 56, 57, 97, 98, 99, 100, 101, 102]
  const HEX_UPPER: seq<bv8> := [48, 49, 50, 51, 52, 53, 54, 55, 56, 57, 65, 66, 67, 68, 69, 70]

  /** The digits 0-9 and a-f, of either case, have the value of their place. */
  lemma DigitsByPlace()
    ensures [Hex(0), Hex(1), Hex(2), Hex(3), Hex(4), Hex(5), Hex(6), Hex(7),
             Hex(8), Hex(9), Hex(10), Hex(11), Hex(12), Hex(13), Hex(14), Hex(15)] == HEX_LOWER
    ensures [Digit(48), Digit(49), Digit(50), Digit(51), Digit(52), Digit(53), Digit(54), Digit(55), Digit(56), Digit(57)]
      == [0, 1, 2, 3, 4, 5, 6, 7, 8, 9]
    ensures [Digit(97), Digit(98), Digit(99), Digit(100), Digit(101), Digit(102)] == [10, 11, 12, 13, 14, 15]
    ensures [Digit(65), Digit(66), Digit(67), Digit(68), Digit(69), Digit(70)] == [10, 11, 12, 13, 14, 15]
  {
  }

  lemma HexByCharacters(c: bv8)
    ensures IsHex(c) <==> 48 <= c <= 57 || 97 <= c <= 102 || 65 <= c <= 70
    ensures IsHex(c) ==> Digit(c) < 16
  {
  }

  /** What a valid escape of value `v`, written with digits `x` and `y`, comes out as, and
      whether it ends the text: in a URI or a redirect an escaped '?' does; a redirect keeps
      the escapes of everything but visible characters above '%', except that as a URI, too,
      it keeps only those whose second digit is no letter. */
  function EscapeMeans(v: bv8, x: bv8, y: bv8, m: Mode): (r: (seq<bv8>, bool)) {
    if !m.uri && !m.redirect then ([v], false)
    else if v == QMARK then ([v], true)
    else if m.redirect && !(m.uri && !(48 <= y <= 57)) && (v <= PERCENT || v >= 127) then ([PERCENT, x, y], false)
    else ([v], false)
  }

  /** What a text is unescaped to. A '%' before no digit is dropped, one with a single digit
      takes both characters behind it along, and one cut off by the end is dropped. */
  function Meaning(e: seq<bv8>, i: nat, m: Mode): (s: seq<bv8>)
    requires i <= |e|
    decreases |e| - i
  {
    if i == |e| then []
    else if e[i] == QMARK && (m.uri || m.redirect) then [QMARK]
    else if e[i] != PERCENT then [e[i]] + Meaning(e, i + 1, m)
    else if i + 1 == |e| then []
    else if !IsHex(e[i + 1]) then [e[i + 1]] + Meaning(e, i + 2, m)
    else if i + 2 == |e| then []
    else if !IsHex(e[i + 2]) then Meaning(e, i + 3, m)
    else
      var r := EscapeMeans((Digit(e[i + 1]) << 4) + Digit(e[i + 2]), e[i + 1], e[i + 2], m);
      if r.1 then r.0 else r.0 + Meaning(e, i + 3, m)
  }

  // The second digit of an escape; only a letter completes '?'.
  lemma SecondDigit(x: bv8, y: bv8, m: Mode)
    requires IsHex(x) && IsHex(y)
    ensures var r := EscapeMeans((Digit(x) << 4) + Digit(y), x, y, m);
      Next(x, y, 2, Digit(x), m) == Turn(r.0, 0, Digit(x), r.1)
  {
    QmarkNeedsLetter(x, y);
  }

  lemma QmarkNeedsLetter(x: bv8, y: bv8)
    requires IsHex(x) && IsHex(y)
    ensures (Digit(x) << 4) + Digit(y) == QMARK ==> !IsDigit(y)
  {
  }

  /** In every mode the machine gives every text its meaning. */
  lemma {:induction false} UnescapeIsMeaning(e: seq<bv8>, i: nat, decoded: bv8, m: Mode)
    requires i <= |e|
    ensures Unescape(e, i, 0, decoded, m) == Meaning(e, i, m)
    decreases |e| - i
  {
    hide Digit, IsHex, EscapeMeans;
    if i < |e| && !(e[i] == QMARK && (m.uri || m.redirect)) {
      if e[i] != PERCENT {
        UnescapeIsMeaning(e, i + 1, decoded, m);
      } else if i + 1 < |e| {
        PercentTurns(e, i, decoded, m);
        if !IsHex(e[i + 1]) {
          UnescapeIsMeaning(e, i + 2, decoded, m);
        } else if i + 2 < |e| {
          UnescapeIsMeaning(e, i + 3, Digit(e[i + 1]), m);
        }
      } else {
        assert Unescape(e, i, 0, decoded, m) == [] + Unescape(e, i + 1, 1, decoded, m);
      }
    }
  }

  // The turns from a '%' on.
  lemma PercentTurns(e: seq<bv8>, i: nat, decoded: bv8, m: Mode)
    requires i + 1 < |e| && e[i] == PERCENT
    ensures !IsHex(e[i + 1]) ==> Unescape(e, i, 0, decoded, m) == [e[i + 1]] + Unescape(e, i + 2, 0, decoded, m)
    ensures IsHex(e[i + 1]) && i + 2 == |e| ==> Unescape(e, i, 0, decoded, m) == []
    ensures IsHex(e[i + 1]) && i + 2 < |e| ==> var d := Digit(e[i + 1]);
      Unescape(e, i, 0, decoded, m) ==
        if !IsHex(e[i + 2]) then Unescape(e, i + 3, 0, d, m)
        else var r := EscapeMeans((d << 4) + Digit(e[i + 2]), e[i + 1], e[i + 2], m);
             if r.1 then r.0 else r.0 + Unescape(e, i + 3, 0, d, m)
  {
    hide Digit, IsHex, EscapeMeans, Next, Unescape;
    PercentTurn(e, i, decoded, m);
    DigitTurn(e, i + 1, decoded, m);
    if IsHex(e[i + 1]) {
      if i + 2 < |e| {
        LastTurn(e, i + 2, m);
      } else {
        NothingLeft(e, Digit(e[i + 1]), m);
      }
    }
  }

  lemma NothingLeft(e: seq<bv8>, decoded: bv8, m: Mode)
    ensures Unescape(e, |e|, 2, decoded, m) == []
  {
  }

  lemma PercentTurn(e: seq<bv8>, i: nat, decoded: bv8, m: Mode)
    requires i < |e| && e[i] == PERCENT
    ensures Unescape(e, i, 0, decoded, m) == Unescape(e, i + 1, 1, decoded, m)
  {
    assert [] + Unescape(e, i + 1, 1, decoded, m) == Unescape(e, i + 1, 1, decoded, m);
  }

  lemma DigitTurn(e: seq<bv8>, i: nat, decoded: bv8, m: Mode)
    requires i < |e|
    ensures Unescape(e, i, 1, decoded, m) ==
      if IsHex(e[i]) then Unescape(e, i + 1, 2, Digit(e[i]), m) else [e[i]] + Unescape(e, i + 1, 0, decoded, m)
  {
    hide Digit, IsHex;
    assert [] + Unescape(e, i + 1, 2, Digit(e[i]), m) == Unescape(e, i + 1, 2, Digit(e[i]), m);
  }

  lemma LastTurn(e: seq<bv8>, i: nat, m: Mode)
    requires 0 < i < |e| && IsHex(e[i - 1])
    ensures var d := Digit(e[i - 1]);
      Unescape(e, i, 2, d, m) ==
        if !IsHex(e[i]) then Unescape(e, i + 1, 0, d, m)
        else var r := EscapeMeans((d << 4) + Digit(e[i]), e[i - 1], e[i], m);
             if r.1 then r.0 else r.0 + Unescape(e, i + 1, 0, d, m)
  {
    hide Digit, IsHex, EscapeMeans;
    var d := Digit(e[i - 1]);
    if IsHex(e[i]) {
      SecondDigit(e[i - 1], e[i], m);
      hide Next;
    } else {
      assert [] + Unescape(e, i + 1, 0, d, m) == Unescape(e, i + 1, 0, d, m);
    }
  }

  // -------------------------------------------------------------------- round trip

  lemma HexIsDigit(c: bv8)
    ensures c >> 4 < 16 && c & 0xf < 16
    ensures IsHex(Hex(c >> 4)) && IsHex(Hex(c & 0xf)) && (Digit(Hex(c >> 4)) << 4) + Digit(Hex(c & 0xf)) == c
  {
    Nibbles(c);
  }

  // The escaped form stands at the end of `e`, from `i`.
  lemma {:induction false} EscapedMeans(t: Table, s: seq<bv8>, e: seq<bv8>, i: nat)
    requires i <= |e| && e[i..] == Escape(t, s)
    requires forall k :: 0 <= k < |s| && s[k] == PERCENT ==> Escapes(t, s[k])
    ensures Meaning(e, i, PLAIN) == s
    decreases |s|
  {
    hide Escapes, Hex, Digit, IsHex;
    if |s| > 0 {
      var one, rest, w := EscapeOne(t, s[0]), Escape(t, s[1..]), e[i..];
      assert w == one + rest;
      assert w[|one|..] == rest && w[|one|..] == e[i + |one|..];
      assert s == [s[0]] + s[1..];
      if Escapes(t, s[0]) {
        assert w[0] == e[i] && w[1] == e[i + 1] && w[2] == e[i + 2];
        HexIsDigit(s[0]);
        EscapedMeans(t, s[1..], e, i + 3);
      } else {
        assert w[0] == e[i] && s[0] != PERCENT;
        EscapedMeans(t, s[1..], e, i + 1);
      }
    } else {
      assert i == |e|;
    }
  }

  lemma PlainRoundTrip(t: Table, s: seq<bv8>)
    requires forall k :: 0 <= k < |s| && s[k] == PERCENT ==> Escapes(t, s[k])
    ensures Unescape(Escape(t, s), 0, 0, 0, PLAIN) == s
  {
    hide Escapes, Unescape, Meaning, Escape;
    assert Escape(t, s)[0..] == Escape(t, s);
    EscapedMeans(t, s, Escape(t, s), 0);
    UnescapeIsMeaning(Escape(t, s), 0, 0, PLAIN);
  }

  /** Plain unescaping undoes escaping on every byte string exactly for the tables that
      escape '%'. */
  lemma UnescapeUndoesEscapeIff(t: Table)
    ensures (forall s: seq<bv8> :: Unescape(Escape(t, s), 0, 0, 0, PLAIN) == s) <==> Escapes(t, PERCENT)
  {
    hide Escapes;
    if Escapes(t, PERCENT) {
      forall s: seq<bv8>
        ensures Unescape(Escape(t, s), 0, 0, 0, PLAIN) == s
      {
        PlainRoundTrip(t, s);
      }
    } else {
      LonePercent(t);
    }
  }

  // A '%' that is not escaped is taken for the start of an escape and lost.
  lemma LonePercent(t: Table)
    requires !Escapes(t, PERCENT)
    ensures Escape(t, [PERCENT]) == [PERCENT] && Unescape([PERCENT], 0, 0, 0, PLAIN) == []
  {
    hide Escapes;
    assert [PERCENT][1..] == [];
    assert Unescape([PERCENT], 1, 1, 0, PLAIN) == [];
  }

  /** With any table, text without '%' comes back. */
  lemma NoPercentComesBack(t: Table, s: seq<bv8>)
    requires PERCENT !in s
    ensures Unescape(Escape(t, s), 0, 0, 0, PLAIN) == s
  {
    PlainRoundTrip(t, s);
  }
}

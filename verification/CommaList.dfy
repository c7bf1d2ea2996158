/** Comma separated field values: ripping a value into tokens, putting tokens together, and
    why the two fit (list syntax: section 7 of RFC 7230). */
module CommaList {
  import opened HttpChars

  const QUOTE := '"'

  function SkipWs(v: string, i: nat): (k: nat)
    requires i <= |v|
    ensures i <= k <= |v| && (k < |v| ==> !IsWs(v[k])) && forall j :: i <= j < k ==> IsWs(v[j])
    decreases |v| - i
  {
    if i < |v| && IsWs(v[i]) then SkipWs(v, i + 1) else i
  }

  predicate Toggled(c: char, q: bool) {
    if c == QUOTE then !q else q
  }

  /** The first comma outside quotes from `i` on, or |v|; `q` tells whether `i` is inside. */
  function TokenEnd(v: string, i: nat, q: bool): (e: nat)
    requires i <= |v|
    ensures i <= e <= |v| && (e < |v| ==> v[e] == ',')
    decreases |v| - i
  {
    if i == |v| || (v[i] == ',' && !q) then i else TokenEnd(v, i + 1, Toggled(v[i], q))
  }

  /** Whether position `b` is inside quotes when `a` is (`q`). */
  function Inside(v: string, a: nat, b: nat, q: bool): (r: bool)
    requires a <= b <= |v|
    decreases b - a
  {
    if a == b then q else Inside(v, a + 1, b, Toggled(v[a], q))
  }

  function TrimEnd(v: string, s: nat, e: nat): (k: nat)
    requires s <= e <= |v|
    ensures s <= k <= e && (k > s ==> !IsWs(v[k - 1])) && forall j :: k <= j < e ==> IsWs(v[j])
    decreases e
  {
    if e > s && IsWs(v[e - 1]) then TrimEnd(v, s, e - 1) else e
  }

  /** The tokens from `i` on; `due` tells that a token is still due at the end, because of a
      separator or because there was none yet. */
  function Tokens(v: string, i: nat, due: bool): (ts: seq<string>)
    requires i <= |v| + 1
    decreases |v| + 1 - i
  {
    if i > |v| then if due then [""] else []
    else
      var j := SkipWs(v, i);
      if j == |v| then if due then [""] else []
      else if v[j] == ',' then [""] + Tokens(v, j + 1, true)
      else
        var e := TokenEnd(v, j, false);
        [v[j..TrimEnd(v, j, e)]] + Tokens(v, e + 1, e < |v|)
  }

  /** A field's value; NULL has no tokens at all. */
  datatype Value = Null | Val(s: string)

  function Parse(v: Value): (ts: seq<string>) {
    if v.Null? then [] else Tokens(v.s, 0, true)
  }

  /** `mime_field_value_str_from_strlist`. */
  function Join(ts: seq<string>): (v: string) {
    if |ts| == 0 then "" else if |ts| == 1 then ts[0] else ts[0] + ", " + Join(ts[1..])
  }

  // ------------------------------------------------------------- what a token can be

  /** Trimmed, and every comma quoted; the last quote may be open. */
  predicate OpenPiece(t: string) {
    t == "" || (!IsWs(t[0]) && !IsWs(t[|t| - 1]) && TokenEnd(t, 0, false) == |t|)
  }

  /** Trimmed, quotes balanced, every comma quoted. */
  predicate Piece(t: string) {
    OpenPiece(t) && !Inside(t, 0, |t|, false)
  }

  /** Only the last token may leave a quote open. */
  predicate WellSplit(ts: seq<string>) {
    forall i :: 0 <= i < |ts| ==> OpenPiece(ts[i]) && (i < |ts| - 1 ==> Piece(ts[i]))
  }

  // --------------------------------------------------- tokens of any value are pieces

  lemma {:induction false} PartScan(v: string, j: nat, t: string, a: nat, q: bool)
    requires j + |t| <= |v| && a <= |t| && (forall x :: 0 <= x < |t| ==> v[j + x] == t[x])
    ensures TokenEnd(v, j + a, q) >= j + |t| ==> TokenEnd(t, a, q) == |t|
    ensures TokenEnd(t, a, q) == |t| && (j + |t| == |v| || (v[j + |t|] == ',' && !Inside(t, a, |t|, q))) ==>
      TokenEnd(v, j + a, q) == j + |t|
    ensures Inside(v, j + a, j + |t|, q) == Inside(t, a, |t|, q)
    decreases |t| - a
  {
    if a < |t| {
      assert v[j + a] == t[a];
      PartScan(v, j, t, a + 1, Toggled(t[a], q));
    }
  }

  lemma {:induction false} EndsOutside(v: string, j: nat, q: bool)
    requires j <= |v| && TokenEnd(v, j, q) < |v|
    ensures !Inside(v, j, TokenEnd(v, j, q), q)
    decreases |v| - j
  {
    if !(v[j] == ',' && !q) {
      EndsOutside(v, j + 1, Toggled(v[j], q));
    }
  }

  lemma {:induction false} InsideSplit(v: string, a: nat, b: nat, c: nat, q: bool)
    requires a <= b <= c <= |v|
    ensures Inside(v, a, c, q) == Inside(v, b, c, Inside(v, a, b, q))
    decreases b - a
  {
    if a < b {
      InsideSplit(v, a + 1, b, c, Toggled(v[a], q));
    }
  }

  lemma {:induction false} WsKeepsInside(v: string, a: nat, b: nat, q: bool)
    requires a <= b <= |v| && forall j :: a <= j < b ==> IsWs(v[j])
    ensures Inside(v, a, b, q) == q
    decreases b - a
  {
    if a < b {
      WsKeepsInside(v, a + 1, b, q);
    }
  }

  // A token that starts at `j`, and what its quotes do.
  lemma TokenIsPiece(v: string, j: nat)
    requires j < |v| && !IsWs(v[j]) && v[j] != ','
    ensures var e := TokenEnd(v, j, false); var t := v[j..TrimEnd(v, j, e)];
      OpenPiece(t) && (Inside(t, 0, |t|, false) == Inside(v, j, e, false)) && (e < |v| ==> Piece(t))
  {
    var e := TokenEnd(v, j, false);
    assert e > j;
    hide Inside, TokenEnd, TrimEnd, IsWs, OpenPiece;
    TrimKeepsFirst(v, j, e);
    TrimmedToken(v, j, e, TrimEnd(v, j, e));
    if e < |v| {
      EndsOutside(v, j, false);
    }
  }

  lemma TrimmedToken(v: string, j: nat, e: nat, k: nat)
    requires j < k <= e <= |v| && e == TokenEnd(v, j, false) && !IsWs(v[j]) && !IsWs(v[k - 1])
    requires forall x :: k <= x < e ==> IsWs(v[x])
    ensures var t := v[j..k]; OpenPiece(t) && Inside(t, 0, |t|, false) == Inside(v, j, e, false)
  {
    hide Inside, TokenEnd, IsWs;
    var t := v[j..k];
    assert forall x :: 0 <= x < |t| ==> v[j + x] == t[x];
    PartScan(v, j, t, 0, false);
    InsideSplit(v, j, k, e, false);
    WsKeepsInside(v, k, e, Inside(v, j, k, false));
    assert t[0] == v[j] && t[|t| - 1] == v[k - 1];
  }

  lemma TrimKeepsFirst(v: string, j: nat, e: nat)
    requires j < e <= |v| && !IsWs(v[j])
    ensures TrimEnd(v, j, e) > j
  {
  }

  // The cases of `Tokens`.
  lemma NoToken(v: string, i: nat, due: bool)
    requires i <= |v| + 1 && (i <= |v| ==> SkipWs(v, i) == |v|)
    ensures Tokens(v, i, due) == if due then [""] else []
  {
  }

  lemma EmptyToken(v: string, i: nat, due: bool)
    requires i <= |v| && SkipWs(v, i) < |v| && v[SkipWs(v, i)] == ','
    ensures Tokens(v, i, due) == [""] + Tokens(v, SkipWs(v, i) + 1, true)
  {
  }

  lemma WordToken(v: string, i: nat, due: bool)
    requires i <= |v| && SkipWs(v, i) < |v| && v[SkipWs(v, i)] != ','
    ensures var j := SkipWs(v, i); var e := TokenEnd(v, j, false);
      Tokens(v, i, due) == [v[j..TrimEnd(v, j, e)]] + Tokens(v, e + 1, e < |v|)
  {
  }

  lemma WellSplitCons(t: string, rest: seq<string>)
    requires OpenPiece(t) && (rest != [] ==> Piece(t)) && WellSplit(rest)
    ensures WellSplit([t] + rest)
  {
    hide OpenPiece, Piece;
    var ts := [t] + rest;
    forall i | 0 <= i < |ts|
      ensures OpenPiece(ts[i]) && (i < |ts| - 1 ==> Piece(ts[i]))
    {
      if i > 0 {
        assert ts[i] == rest[i - 1];
      }
    }
  }

  /** Whatever the value, its tokens are well split. */
  lemma {:induction false} TokensAreWellSplit(v: string, i: nat, due: bool)
    requires i <= |v| + 1
    ensures WellSplit(Tokens(v, i, due))
    decreases |v| + 1 - i
  {
    hide TokenEnd, Piece, OpenPiece, Tokens, TrimEnd, WellSplit;
    EmptyIsPiece();
    if i > |v| || SkipWs(v, i) == |v| {
      NoToken(v, i, due);
    } else {
      var j := SkipWs(v, i);
      if v[j] == ',' {
        TokensAreWellSplit(v, j + 1, true);
        EmptyToken(v, i, due);
        WellSplitCons("", Tokens(v, j + 1, true));
      } else {
        var e := TokenEnd(v, j, false);
        TokenIsPiece(v, j);
        TokensAreWellSplit(v, e + 1, e < |v|);
        WordToken(v, i, due);
        if e == |v| {
          NoToken(v, e + 1, false);
        }
        WellSplitCons(v[j..TrimEnd(v, j, e)], Tokens(v, e + 1, e < |v|));
      }
    }
  }

  lemma EmptyIsPiece()
    ensures Piece("") && OpenPiece("") && WellSplit([]) && WellSplit([""])
  {
  }

  /** A value with balanced quotes has balanced tokens only. */
  lemma {:induction false} BalancedTokens(v: string, i: nat, due: bool)
    requires i <= |v| + 1 && (i <= |v| ==> !Inside(v, i, |v|, false))
    ensures var ts := Tokens(v, i, due); forall k :: 0 <= k < |ts| ==> Piece(ts[k])
    decreases |v| + 1 - i
  {
    hide TokenEnd, OpenPiece, Inside, Tokens, Piece, TrimEnd;
    EmptyIsPiece();
    if i > |v| || SkipWs(v, i) == |v| {
      NoToken(v, i, due);
    } else {
      var j := SkipWs(v, i);
      InsideSplit(v, i, j, |v|, false);
      WsKeepsInside(v, i, j, false);
      if v[j] == ',' {
        InsideOnce(v, j);
        BalancedTokens(v, j + 1, true);
        EmptyToken(v, i, due);
      } else {
        var e := TokenEnd(v, j, false);
        TokenIsPiece(v, j);
        if e < |v| {
          EndsOutside(v, j, false);
          InsideSplit(v, j, e, |v|, false);
          InsideOnce(v, e);
        } else {
          ClosedIsPiece(v[j..TrimEnd(v, j, e)]);
        }
        BalancedTokens(v, e + 1, e < |v|);
        WordToken(v, i, due);
      }
    }
  }

  lemma ClosedIsPiece(t: string)
    requires OpenPiece(t) && !Inside(t, 0, |t|, false)
    ensures Piece(t)
  {
  }

  lemma InsideOnce(v: string, j: nat)
    requires j < |v| && v[j] == ','
    ensures Inside(v, j, |v|, false) == Inside(v, j + 1, |v|, false)
  {
  }

  // ---------------------------------------------------------- putting together and back

  // The joined tokens stand at the end of `v` from `k`, perhaps after one space.
  lemma {:induction false} JoinedTokens(v: string, i: nat, k: nat, ts: seq<string>)
    requires k <= |v| && (i == k || (i + 1 == k && v[i] == ' ')) && |ts| > 0 && WellSplit(ts)
    requires v[k..] == Join(ts)
    ensures Tokens(v, i, true) == ts
    decreases |ts|
  {
    hide TokenEnd, Inside, IsWs, Join, Tokens, TrimEnd, WellSplit;
    var t := ts[0];
    var e := k + |t|;
    JoinedFirst(v, k, ts);
    assert ts == [t] + ts[1..];
    if |ts| > 1 {
      WellSplitTail(ts);
      JoinedTokens(v, e + 1, e + 2, ts[1..]);
    }
    if |t| > 0 {
      TokenStands(v, k, ts);
      SkipsTo(v, i, k);
      WordToken(v, i, true);
      if |ts| == 1 {
        NoToken(v, e + 1, false);
      }
    } else {
      CommaIsNoWs();
      SkipsTo(v, i, k);
      if |ts| == 1 {
        NoToken(v, i, true);
      } else {
        EmptyToken(v, i, true);
      }
    }
  }

  lemma CommaIsNoWs()
    ensures !IsWs(',')
  {
  }

  lemma WellSplitTail(ts: seq<string>)
    requires WellSplit(ts) && |ts| > 1
    ensures WellSplit(ts[1..])
  {
    hide Piece, OpenPiece;
  }

  // Where the first token and what follows stand.
  lemma JoinedFirst(v: string, k: nat, ts: seq<string>)
    requires k <= |v| && |ts| > 0 && v[k..] == Join(ts)
    ensures var e := k + |ts[0]|; e <= |v| && v[k..e] == ts[0]
    ensures |ts| == 1 ==> k + |ts[0]| == |v|
    ensures |ts| > 1 ==> var e := k + |ts[0]|; e + 2 <= |v| && v[e] == ',' && v[e + 1] == ' ' && v[e + 2..] == Join(ts[1..])
  {
    var t, w := ts[0], v[k..];
    if |ts| > 1 {
      var r := Join(ts[1..]);
      assert w == t + ", " + r;
      assert w[|t|] == ',' && w[|t| + 1] == ' ' && w[|t| + 2..] == r && w[..|t|] == t;
      assert v[k + |t| + 2..] == w[|t| + 2..];
    }
    assert v[k..k + |t|] == w[..|t|];
  }

  lemma SkipsTo(v: string, i: nat, k: nat)
    requires k <= |v| && (i == k || (i + 1 == k && v[i] == ' ')) && (k < |v| ==> !IsWs(v[k]))
    ensures SkipWs(v, i) == k
  {
  }

  lemma TokenStands(v: string, k: nat, ts: seq<string>)
    requires |ts| > 0 && |ts[0]| > 0 && WellSplit(ts) && k + |ts[0]| <= |v| && v[k..k + |ts[0]|] == ts[0]
    requires if |ts| == 1 then k + |ts[0]| == |v| else k + |ts[0]| < |v| && v[k + |ts[0]|] == ','
    ensures !IsWs(v[k]) && v[k] != ',' && TokenEnd(v, k, false) == k + |ts[0]| && TrimEnd(v, k, k + |ts[0]|) == k + |ts[0]|
  {
    var t := ts[0];
    assert OpenPiece(t) && (|ts| > 1 ==> Piece(t));
    assert forall x :: 0 <= x < |t| ==> v[k + x] == t[x];
    PartScan(v, k, t, 0, false);
    assert v[k + (|t| - 1)] == t[|t| - 1];
  }

  /** A list survives being joined and ripped apart again exactly when it is well split and
      not empty: that is all that tokens need to satisfy. */
  lemma JoinParsesIff(ts: seq<string>)
    ensures Parse(Val(Join(ts))) == ts <==> |ts| > 0 && WellSplit(ts)
  {
    hide WellSplit, Join, Tokens;
    var v := Join(ts);
    TokensAreWellSplit(v, 0, true);
    SomeToken(v);
    if |ts| > 0 && WellSplit(ts) {
      assert v[0..] == v;
      JoinedTokens(v, 0, 0, ts);
    }
  }

  lemma SomeToken(v: string)
    ensures |Tokens(v, 0, true)| > 0
  {
  }

  // -------------------------------------------------------- lists however they are written

  predicate Blanks(w: string) {
    forall i :: 0 <= i < |w| ==> w[i] == ' ' || w[i] == '\t'
  }

  /** A token and the blanks written in front of it and behind it. */
  datatype Padded = Padded(front: string, token: string, back: string)

  function Spell(ps: seq<Padded>): (v: string)
    requires |ps| > 0
  {
    var p := ps[0].front + ps[0].token + ps[0].back;
    if |ps| == 1 then p else p + "," + Spell(ps[1..])
  }

  function TokensOf(ps: seq<Padded>): (ts: seq<string>)
    ensures |ts| == |ps| && forall i :: 0 <= i < |ps| ==> ts[i] == ps[i].token
  {
    seq(|ps|, i requires 0 <= i < |ps| => ps[i].token)
  }

  /** Only an open quote would swallow the blanks behind the last token. */
  predicate Tidy(ps: seq<Padded>) {
    && |ps| > 0 && (forall i :: 0 <= i < |ps| ==> Blanks(ps[i].front) && Blanks(ps[i].back))
    && WellSplit(TokensOf(ps))
  }

  // What stands where when the padded tokens are the end of `v`.
  lemma SpelledFirst(v: string, i: nat, ps: seq<Padded>)
    requires i <= |v| && |ps| > 0 && v[i..] == Spell(ps)
    ensures var k := i + |ps[0].front|; var e := k + |ps[0].token|; var c := e + |ps[0].back|;
      && c <= |v| && v[i..k] == ps[0].front && v[k..e] == ps[0].token && v[e..c] == ps[0].back
      && (|ps| == 1 ==> c == |v|) && (|ps| > 1 ==> c < |v| && v[c] == ',' && v[c + 1..] == Spell(ps[1..]))
  {
    var p := ps[0];
    var tail := if |ps| == 1 then "" else "," + Spell(ps[1..]);
    var k := i + |p.front|;
    var e := k + |p.token|;
    assert Spell(ps) == p.front + (p.token + (p.back + tail));
    hide Spell;
    Peel(v, i, p.front, p.token + (p.back + tail));
    Peel(v, k, p.token, p.back + tail);
    Peel(v, e, p.back, tail);
    if |ps| > 1 {
      Peel(v, e + |p.back|, ",", Spell(ps[1..]));
    }
  }

  lemma Peel(v: string, i: nat, x: string, y: string)
    requires i <= |v| && v[i..] == x + y
    ensures i + |x| <= |v| && v[i..i + |x|] == x && v[i + |x|..] == y
  {
    var w := v[i..];
    assert w[..|x|] == x && w[|x|..] == y;
    assert v[i..i + |x|] == w[..|x|] && v[i + |x|..] == w[|x|..];
  }

  lemma {:induction false} SkipsBlanks(v: string, i: nat, k: nat)
    requires i <= k <= |v| && (forall j :: i <= j < k ==> IsWs(v[j])) && (k < |v| ==> !IsWs(v[k]))
    ensures SkipWs(v, i) == k
    decreases k - i
  {
    if i < k {
      SkipsBlanks(v, i + 1, k);
    }
  }

  lemma {:induction false} BlanksBehind(v: string, e: nat, c: nat)
    requires e <= c <= |v| && (forall j :: e <= j < c ==> IsWs(v[j])) && (c < |v| ==> v[c] == ',')
    ensures TokenEnd(v, e, false) == c
    decreases c - e
  {
    if e < c {
      BlanksBehind(v, e + 1, c);
    }
  }

  lemma {:induction false} TrimsBlanks(v: string, s: nat, e: nat, c: nat)
    requires s <= e <= c <= |v| && (forall j :: e <= j < c ==> IsWs(v[j])) && (e > s ==> !IsWs(v[e - 1]))
    ensures TrimEnd(v, s, c) == e
    decreases c
  {
    if c > e {
      TrimsBlanks(v, s, e, c - 1);
    }
  }

  // Scanning goes through a token to its end.
  lemma {:induction false} ScanThrough(v: string, j: nat, t: string, a: nat, q: bool)
    requires j + |t| <= |v| && a <= |t| && (forall x :: 0 <= x < |t| ==> v[j + x] == t[x])
    requires TokenEnd(t, a, q) == |t|
    ensures TokenEnd(v, j + a, q) == TokenEnd(v, j + |t|, Inside(t, a, |t|, q))
    decreases |t| - a
  {
    if a < |t| {
      assert v[j + a] == t[a];
      ScanThrough(v, j, t, a + 1, Toggled(t[a], q));
    }
  }

  // A closed token with blanks behind it, or the last token.
  lemma SpelledWord(v: string, k: nat, t: string, e: nat, c: nat)
    requires |t| > 0 && OpenPiece(t) && e == k + |t| && e <= c <= |v| && v[k..e] == t
    requires (forall j :: e <= j < c ==> IsWs(v[j])) && (c < |v| ==> v[c] == ',')
    requires Piece(t) || c == |v|
    ensures !IsWs(v[k]) && v[k] != ',' && TokenEnd(v, k, false) == c && TrimEnd(v, k, c) == e
  {
    hide Inside;
    assert forall x :: 0 <= x < |t| ==> v[k + x] == t[x];
    assert v[k] == t[0] && v[e - 1] == t[|t| - 1];
    ScanThrough(v, k, t, 0, false);
    BlanksBehind(v, e, c);
    if Inside(t, 0, |t|, false) {
      NoCommaBehind(v, e);
    }
    TrimsBlanks(v, k, e, c);
  }

  lemma {:induction false} NoCommaBehind(v: string, e: nat)
    requires e <= |v| && forall j :: e <= j < |v| ==> IsWs(v[j])
    ensures TokenEnd(v, e, true) == |v|
    decreases |v| - e
  {
    if e < |v| {
      NoCommaBehind(v, e + 1);
    }
  }

  lemma SpelledHead(v: string, i: nat, ps: seq<Padded>) returns (c: nat)
    requires i <= |v| && Tidy(ps) && v[i..] == Spell(ps)
    ensures i <= c <= |v| && (|ps| > 1 ==> c < |v| && v[c + 1..] == Spell(ps[1..]))
    ensures Tokens(v, i, true) == [ps[0].token] + if |ps| > 1 then Tokens(v, c + 1, true) else []
  {
    hide TokenEnd, TrimEnd, Tokens, OpenPiece, Piece, Spell;
    var p := ps[0];
    var k := i + |p.front|;
    var e := k + |p.token|;
    c := e + |p.back|;
    SpelledFirst(v, i, ps);
    assert forall j :: i <= j < k ==> v[j] == p.front[j - i];
    assert forall j :: e <= j < c ==> v[j] == p.back[j - e];
    assert OpenPiece(TokensOf(ps)[0]);
    if |p.token| > 0 {
      assert Piece(TokensOf(ps)[0]) || c == |v|;
      SpelledWord(v, k, p.token, e, c);
      SkipsBlanks(v, i, k);
      WordToken(v, i, true);
    } else {
      SkipsBlanks(v, i, c);
      if |ps| > 1 { EmptyToken(v, i, true); }
    }
    if |ps| == 1 {
      AtTheEnd(v, i);
    }
  }

  lemma {:induction false} SpelledTokens(v: string, i: nat, ps: seq<Padded>)
    requires i <= |v| && Tidy(ps) && v[i..] == Spell(ps)
    ensures Tokens(v, i, true) == TokensOf(ps)
    decreases |ps|
  {
    hide Tokens, WellSplit, Spell;
    var c := SpelledHead(v, i, ps);
    if |ps| > 1 {
      TidyTail(ps);
      SpelledTokens(v, c + 1, ps[1..]);
    }
    assert TokensOf(ps) == [ps[0].token] + if |ps| > 1 then TokensOf(ps[1..]) else [];
  }

  lemma AtTheEnd(v: string, i: nat)
    requires i <= |v|
    ensures Tokens(v, |v| + 1, false) == [] && (SkipWs(v, i) == |v| ==> Tokens(v, i, true) == [""])
  {
  }

  lemma TidyTail(ps: seq<Padded>)
    requires Tidy(ps) && |ps| > 1
    ensures Tidy(ps[1..])
  {
    hide Piece, OpenPiece;
    var ts := TokensOf(ps[1..]);
    forall i | 0 <= i < |ts|
      ensures OpenPiece(ts[i]) && (i < |ts| - 1 ==> Piece(ts[i]))
    {
      assert ts[i] == TokensOf(ps)[i + 1];
    }
  }

  /** A list is read as its tokens whatever blanks are written around them. */
  lemma SpelledParses(ps: seq<Padded>)
    requires Tidy(ps)
    ensures Parse(Val(Spell(ps))) == TokensOf(ps)
  {
    hide Tokens, Spell;
    var v := Spell(ps);
    assert v[0..] == v;
    SpelledTokens(v, 0, ps);
  }

  // -------------------------------------------------------------------------- quotes

  /** The quotes in t[a..b]. */
  function Quotes(t: string, a: nat, b: nat): (n: nat)
    requires a <= b <= |t|
    decreases b - a
  {
    if a == b then 0 else (if t[b - 1] == '"' then 1 else 0) + Quotes(t, a, b - 1)
  }

  /** A place is inside quotes when an odd number of quotes stands before it. */
  lemma {:induction false} InsideIsOdd(t: string, a: nat, b: nat)
    requires a <= b <= |t|
    ensures Inside(t, a, b, false) <==> Quotes(t, a, b) % 2 == 1
    decreases b - a
  {
    if a < b {
      InsideIsOdd(t, a, b - 1);
      InsideSplit(t, a, b - 1, b, false);
    }
  }

  /** A token ends at the first comma with an even number of quotes before it. */
  lemma TokenEndsOutside(v: string, i: nat)
    requires i <= |v|
    ensures var e := TokenEnd(v, i, false);
      && (e < |v| ==> v[e] == ',' && Quotes(v, i, e) % 2 == 0)
      && forall j :: i <= j < e && v[j] == ',' ==> Quotes(v, i, j) % 2 == 1
  {
    var e := TokenEnd(v, i, false);
    if e < |v| {
      EndsOutside(v, i, false);
      InsideIsOdd(v, i, e);
    }
    forall j | i <= j < e && v[j] == ','
      ensures Quotes(v, i, j) % 2 == 1
    {
      CommasInside(v, i, false, j);
      InsideIsOdd(v, i, j);
    }
  }

  lemma {:induction false} CommasInside(v: string, i: nat, q: bool, j: nat)
    requires i <= j < |v| && j < TokenEnd(v, i, q) && v[j] == ','
    ensures Inside(v, i, j, q)
    decreases |v| - i
  {
    if i < j {
      CommasInside(v, i + 1, Toggled(v[i], q), j);
    }
  }

  // --------------------------------------------------------------------------- edits

  function Retyped(ts: seq<string>, idx: int, piece: string): (ts': seq<string>)
    requires 0 <= idx < |ts|
  {
    ts[idx := piece]
  }

  function Without(ts: seq<string>, idx: int): (ts': seq<string>)
    requires 0 <= idx < |ts|
  {
    ts[..idx] + ts[idx + 1..]
  }

  function With(ts: seq<string>, idx: int, piece: string): (ts': seq<string>)
    requires 0 <= idx <= |ts|
  {
    ts[..idx] + [piece] + ts[idx..]
  }

  /** `mime_field_value_set_comma_val`. */
  function SetVal(v: Value, idx: int, piece: string): (v': Value) {
    var ts := Parse(v);
    if 0 <= idx < |ts| then Val(Join(Retyped(ts, idx, piece))) else v
  }

  /** `mime_field_value_delete_comma_val`: the last token leaves no value. */
  function DeleteVal(v: Value, idx: int): (v': Value) {
    var ts := Parse(v);
    if !(0 <= idx < |ts|) then v else if |ts| == 1 then Null else Val(Join(Without(ts, idx)))
  }

  /** `mime_field_value_insert_comma_val`: a negative index means the end. */
  function InsertVal(v: Value, idx: int, piece: string): (v': Value) {
    var ts := Parse(v);
    var i := if idx < 0 then |ts| else idx;
    if i > |ts| then v else Val(Join(With(ts, i, piece)))
  }

  /** An index out of range changes nothing, and a negative one inserts at the end. */
  lemma EditsOutOfRange(v: Value, idx: int, piece: string)
    ensures !(0 <= idx < |Parse(v)|) ==> SetVal(v, idx, piece) == v && DeleteVal(v, idx) == v
    ensures idx > |Parse(v)| ==> InsertVal(v, idx, piece) == v
    ensures idx < 0 ==> InsertVal(v, idx, piece) == InsertVal(v, |Parse(v)|, piece)
  {
  }

  lemma ParsedIsWellSplit(v: Value)
    ensures WellSplit(Parse(v))
  {
    hide WellSplit, Tokens;
    EmptyIsPiece();
    if v.Val? {
      TokensAreWellSplit(v.s, 0, true);
    }
  }

  /** Setting a token does exactly that, for every value, if and only if the new token is
      trimmed, quotes its commas and, unless it is the last, closes its quotes. */
  lemma SetThenParse(v: Value, idx: int, piece: string)
    requires 0 <= idx < |Parse(v)|
    ensures Parse(SetVal(v, idx, piece)) == Retyped(Parse(v), idx, piece)
            <==> OpenPiece(piece) && (idx < |Parse(v)| - 1 ==> Piece(piece))
  {
    hide Join, Tokens, OpenPiece, Piece;
    var ts := Parse(v);
    ParsedIsWellSplit(v);
    JoinParsesIff(Retyped(ts, idx, piece));
    if WellSplit(ts[idx := piece]) {
      assert ts[idx := piece][idx] == piece;
    }
  }

  /** Deleting a token does exactly that, for every value and every token. */
  lemma DeleteThenParse(v: Value, idx: int)
    requires 0 <= idx < |Parse(v)|
    ensures Parse(DeleteVal(v, idx)) == Without(Parse(v), idx)
  {
    hide Join, Tokens, OpenPiece, Piece;
    var ts := Parse(v);
    ParsedIsWellSplit(v);
    var ts' := Without(ts, idx);
    if |ts| > 1 {
      forall i | 0 <= i < |ts'|
        ensures OpenPiece(ts'[i]) && (i < |ts'| - 1 ==> Piece(ts'[i]))
      {
        assert ts'[i] == ts[if i < idx then i else i + 1];
      }
      JoinParsesIff(ts');
    } else {
      assert ts' == [];
    }
  }

  /** Inserting a token does exactly that if and only if the token is a piece that may stand
      there and does not follow an open quote. */
  lemma InsertThenParse(v: Value, idx: int, piece: string)
    requires 0 <= idx <= |Parse(v)|
    ensures Parse(InsertVal(v, idx, piece)) == With(Parse(v), idx, piece) <==>
      (&& OpenPiece(piece) && (idx < |Parse(v)| ==> Piece(piece))
       && (idx == |Parse(v)| > 0 ==> Piece(Parse(v)[idx - 1])))
  {
    hide Join, Tokens, OpenPiece, Piece;
    var ts := Parse(v);
    ParsedIsWellSplit(v);
    var ts' := With(ts, idx, piece);
    JoinParsesIff(ts');
    InsertIsWellSplitIff(ts, idx, piece);
  }

  lemma InsertIsWellSplitIff(ts: seq<string>, idx: nat, piece: string)
    requires idx <= |ts| && WellSplit(ts)
    ensures WellSplit(With(ts, idx, piece)) <==>
      (OpenPiece(piece) && (idx < |ts| ==> Piece(piece)) && (idx == |ts| > 0 ==> Piece(ts[idx - 1])))
  {
    hide OpenPiece, Piece;
    var ts' := With(ts, idx, piece);
    assert ts'[idx] == piece && (idx > 0 ==> ts'[idx - 1] == ts[idx - 1]);
    if OpenPiece(piece) && (idx < |ts| ==> Piece(piece)) && (idx == |ts| > 0 ==> Piece(ts[idx - 1])) {
      forall i | 0 <= i < |ts'|
        ensures OpenPiece(ts'[i]) && (i < |ts'| - 1 ==> Piece(ts'[i]))
      {
        if i != idx {
          assert ts'[i] == ts[if i < idx then i else i - 1];
        }
      }
    }
  }

  /** For a value with balanced quotes any edit with a piece is exact. */
  lemma BalancedEdits(v: string, idx: nat, piece: string)
    requires !Inside(v, 0, |v|, false) && Piece(piece)
    ensures var ts := Parse(Val(v));
      && (idx < |ts| ==> Parse(SetVal(Val(v), idx, piece)) == Retyped(ts, idx, piece))
      && (idx <= |ts| ==> Parse(InsertVal(Val(v), idx, piece)) == With(ts, idx, piece))
  {
    hide Join, OpenPiece, Inside, SetVal, InsertVal;
    var ts := Parse(Val(v));
    BalancedTokens(v, 0, true);
    assert ts == Tokens(v, 0, true);
    assert forall k :: 0 <= k < |ts| ==> Piece(ts[k]);
    if idx < |ts| {
      SetThenParse(Val(v), idx, piece);
    }
    if idx <= |ts| {
      InsertThenParse(Val(v), idx, piece);
    }
  }
}

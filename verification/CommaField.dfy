/** The loops behind comma separated values, and a field whose value they edit. */
module CommaField {
  import opened HttpChars
  import opened CommaList

  /** A token without its surrounding quotes. */
  function Unquoted(t: string): (u: string) {
    var u := if |t| > 0 && t[0] == QUOTE then t[1..] else t;
    if |u| > 0 && u[|u| - 1] == QUOTE then u[..|u| - 1] else u
  }

  /** Only the two outer quotes go. */
  lemma UnquotedIs(x: string)
    ensures Unquoted("\"" + x + "\"") == x
    ensures x == "" || (x[0] != '"' && x[|x| - 1] != '"') ==> Unquoted(x) == x
  {
    var t := "\"" + x + "\"";
    assert t[1..] == x + "\"" && (x + "\"")[..|x|] == x;
  }

  function Shown(t: string, trim: bool): (u: string) {
    if trim then Unquoted(t) else t
  }

  function ShownAll(ts: seq<string>, trim: bool): (us: seq<string>)
    ensures |us| == |ts| && forall i :: 0 <= i < |ts| ==> us[i] == Shown(ts[i], trim)
  {
    seq(|ts|, i requires 0 <= i < |ts| => Shown(ts[i], trim))
  }

  /** The scan for an unquoted separator. */
  method FindEnd(v: string, s: nat, inQuote: bool) returns (e: nat)
    requires s <= |v|
    ensures e == TokenEnd(v, s, inQuote)
  {
    e := s;
    var q := inQuote;
    while e < |v| && !(v[e] == ',' && !q)
      invariant s <= e <= |v| && TokenEnd(v, e, q) == TokenEnd(v, s, inQuote)
    {
      if v[e] == QUOTE {
        q := !q;
      }
      e := e + 1;
    }
  }

  method EatWs(v: string, s: nat, e0: nat) returns (e: nat)
    requires s <= e0 <= |v|
    ensures e == TrimEnd(v, s, e0)
  {
    e := e0;
    while e > s && IsWs(v[e - 1])
      invariant s <= e <= e0 && TrimEnd(v, s, e) == TrimEnd(v, s, e0)
    {
      e := e - 1;
    }
  }

  // One token that starts at `j`, and where the next one may start.
  method Token(v: string, j: nat, trim: bool) returns (t: string, next: nat)
    requires j < |v| && !IsWs(v[j]) && v[j] != ','
    ensures var e := TokenEnd(v, j, false); next == e + 1 && t == Shown(v[j..TrimEnd(v, j, e)], trim)
  {
    var s, e := j, j;
    if v[j] == QUOTE {
      e := FindEnd(v, j + 1, true);
      if trim {
        s := j + 1;
      }
    } else {
      e := FindEnd(v, j, false);
    }
    next := e + 1;
    assert e == TokenEnd(v, j, false) && e > j;
    hide TokenEnd, TrimEnd, IsWs;
    TrimFrom(v, j, s, e);
    e := EatWs(v, s, e);
    ShownToken(v, j, s, e, trim);
    if e > s && v[e - 1] == QUOTE && trim {
      e := e - 1;
    }
    t := v[s..e];
  }

  lemma ShownToken(v: string, j: nat, s: nat, e: nat, trim: bool)
    requires j < e <= |v| && s == if trim && v[j] == QUOTE then j + 1 else j
    ensures Shown(v[j..e], trim) == if e > s && v[e - 1] == QUOTE && trim then v[s..e - 1] else v[s..e]
  {
    var whole := v[j..e];
    assert whole[0] == v[j] && v[s..e] == whole[s - j..];
    if e > s {
      assert whole[s - j..][e - s - 1] == v[e - 1];
      assert v[s..e - 1] == whole[s - j..][..e - s - 1];
    }
  }

  // Starting the trimming behind an opening quote changes nothing.
  lemma TrimFrom(v: string, j: nat, s: nat, e: nat)
    requires j < e <= |v| && !IsWs(v[j]) && j <= s <= j + 1
    ensures TrimEnd(v, s, e) == TrimEnd(v, j, e) > j
  {
  }

  // One turn of the main loop: a token and where to go on, or nothing but white space.
  method NextToken(v: string, s: nat, due: bool, trim: bool) returns (found: bool, t: string, next: nat, hit: bool)
    requires s < |v|
    ensures found ==> s < next <= |v| + 1
    ensures found ==> ShownAll(Tokens(v, s, due), trim) == [t] + ShownAll(Tokens(v, next, hit), trim)
    ensures !found ==> Tokens(v, s, due) == if due then [""] else []
  {
    hide Tokens, Shown, TokenEnd, TrimEnd, ShownAll;
    var j := s;
    while j < |v| && IsWs(v[j])
      invariant s <= j <= |v| && SkipWs(v, j) == SkipWs(v, s)
    {
      j := j + 1;
    }
    found, t, next, hit := true, "", j + 1, true;
    if j < |v| && v[j] == ',' {
      EmptyToken(v, s, due);
      ShownCons("", Tokens(v, j + 1, true), trim);
      EmptyShown(trim);
    } else if j == |v| {
      NoToken(v, s, due);
      found := false;
    } else {
      WordToken(v, s, due);
      t, next := Token(v, j, trim);
      hit := next <= |v|;
      ShownCons(v[j..TrimEnd(v, j, next - 1)], Tokens(v, next, hit), trim);
    }
  }

  /** `parse_tok_list` with separator ','. */
  method ParseTokList(value: Value, trim: bool) returns (list: seq<string>)
    ensures list == ShownAll(Parse(value), trim)
  {
    hide Tokens, Shown, ShownAll, SkipWs;
    list := [];
    EmptyShown(trim);
    if value.Null? {
      return;
    }
    var v := value.s;
    var s, hit, index := 0, false, 0;
    ghost var all := ShownAll(Tokens(v, 0, true), trim);
    assert [] + all == all;
    while s < |v|
      invariant 0 <= s <= |v| + 1 && index == |list|
      invariant all == list + ShownAll(Tokens(v, s, hit || index == 0), trim)
      decreases |v| + 1 - s
    {
      var found, t, next, h := NextToken(v, s, hit || index == 0, trim);
      if !found {
        LastToken(v, s, hit || index == 0);
        s := |v|;
        break;
      }
      ghost var rest := ShownAll(Tokens(v, next, h), trim);
      assert list + ([t] + rest) == (list + [t]) + rest;
      list, index := list + [t], index + 1;
      s, hit := next, h;
    }
    LastToken(v, s, hit || index == 0);
    if hit || index == 0 {
      list := list + [""];
    } else {
      assert list + [] == list;
    }
  }

  lemma LastToken(v: string, s: nat, due: bool)
    requires s <= |v| + 1
    ensures s >= |v| ==> Tokens(v, s, due) == if due then [""] else []
    ensures Tokens(v, |v|, due) == if due then [""] else []
  {
    NoToken(v, |v|, due);
    NoToken(v, |v| + 1, due);
  }

  lemma ShownCons(t: string, ts: seq<string>, trim: bool)
    ensures ShownAll([t] + ts, trim) == [Shown(t, trim)] + ShownAll(ts, trim)
  {
    hide Shown;
  }

  lemma EmptyShown(trim: bool)
    ensures Shown("", trim) == "" && ShownAll([""], trim) == [""] && ShownAll([], trim) == []
  {
  }

  // -------------------------------------------------------------------- reassembling

  function TotalLength(ts: seq<string>): (n: nat) {
    if |ts| == 0 then 0 else TotalLength(ts[..|ts| - 1]) + |ts[|ts| - 1]|
  }

  lemma {:induction false} JoinBack(ts: seq<string>, t: string)
    requires |ts| > 0
    ensures Join(ts + [t]) == Join(ts) + ", " + t
  {
    if |ts| == 1 {
      assert (ts + [t])[1..] == [t];
    } else {
      assert (ts + [t])[1..] == ts[1..] + [t];
      JoinBack(ts[1..], t);
    }
  }

  lemma JoinUpTo(ts: seq<string>, i: nat)
    requires i < |ts|
    ensures Join(ts[..i + 1]) == if i == 0 then ts[0] else Join(ts[..i]) + ", " + ts[i]
  {
    assert ts[..i + 1] == ts[..i] + [ts[i]];
    if i > 0 {
      JoinBack(ts[..i], ts[i]);
    }
  }

  /** `mime_field_value_str_from_strlist`: the length computed first is that of the text. */
  method StrFromList(ts: seq<string>) returns (value: string, len: nat)
    ensures value == Join(ts) && len == |value|
    ensures len == TotalLength(ts) + (if |ts| > 1 then 2 * (|ts| - 1) else 0)
  {
    len := 0;
    var i := 0;
    while i < |ts|
      invariant 0 <= i <= |ts| && len == TotalLength(ts[..i])
    {
      assert ts[..i + 1][..i] == ts[..i];
      len := len + |ts[i]|;
      i := i + 1;
    }
    assert ts[..i] == ts;
    if |ts| > 1 {
      len := len + 2 * (|ts| - 1);
    }
    value := "";
    i := 0;
    while i < |ts|
      invariant 0 <= i <= |ts| && value == Join(ts[..i])
      invariant |value| == TotalLength(ts[..i]) + (if i > 1 then 2 * (i - 1) else 0)
    {
      assert ts[..i + 1][..i] == ts[..i];
      JoinUpTo(ts, i);
      if i != 0 {
        value := value + ", ";
      }
      value := value + ts[i];
      i := i + 1;
    }
    assert ts[..i] == ts;
  }

  class Field {
    var value: Value
    var rawPrintable: bool

    constructor (value: Value)
      ensures this.value == value && !rawPrintable
    {
      this.value, rawPrintable := value, false;
    }

    /** `mime_field_value_set_comma_val`. */
    method SetCommaVal(idx: int, piece: string)
      modifies this
      ensures value == SetVal(old(value), idx, piece)
      ensures if 0 <= idx < |Parse(old(value))| then !rawPrintable else rawPrintable == old(rawPrintable) && value == old(value)
    {
      var list := ParseTokList(value, false);
      assert list == Parse(value);
      if idx < 0 || idx >= |list| {
        return;
      }
      list := list[idx := piece];
      var text, _ := StrFromList(list);
      value, rawPrintable := Val(text), false;
    }

    /** `mime_field_value_delete_comma_val`. */
    method DeleteCommaVal(idx: int)
      modifies this
      ensures value == DeleteVal(old(value), idx)
      ensures if 0 <= idx < |Parse(old(value))| then !rawPrintable else rawPrintable == old(rawPrintable) && value == old(value)
    {
      var list := ParseTokList(value, false);
      assert list == Parse(value);
      if idx < 0 || idx >= |list| {
        return;
      }
      list := list[..idx] + list[idx + 1..];
      if |list| == 0 {
        value := Null;
      } else {
        var text, _ := StrFromList(list);
        value := Val(text);
      }
      rawPrintable := false;
    }

    /** `mime_field_value_insert_comma_val`. */
    method InsertCommaVal(idx: int, piece: string)
      modifies this
      ensures value == InsertVal(old(value), idx, piece)
      ensures if idx <= |Parse(old(value))| then !rawPrintable else rawPrintable == old(rawPrintable) && value == old(value)
    {
      var list := ParseTokList(value, false);
      assert list == Parse(value);
      var i := idx;
      if i < 0 {
        i := |list|;
      }
      if i > |list| {
        return;
      }
      if i == 0 {
        list := [piece] + list;
        assert list == With(Parse(value), 0, piece);
      } else {
        list := list[..i] + [piece] + list[i..];
      }
      var text, _ := StrFromList(list);
      value, rawPrintable := Val(text), false;
    }
  }
}

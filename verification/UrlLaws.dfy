module UrlLaws {
  // What the URL parser makes of every text, stated by the text's layout and not by the
  // parser's own steps, and what printing does to a URL that is not in normal form.

  import opened HttpChars
  import opened UrlParse
  import opened UrlPrint

  // ------------------------------------------------------------------------- scheme

  predicate Spaces(t: string) {
    forall i :: 0 <= i < |t| ==> t[i] == ' '
  }

  lemma {:induction false} SkipsSpaces(s: string, i: nat, k: nat)
    requires i <= k <= |s| && (forall j :: i <= j < k ==> s[j] == ' ') && (k < |s| ==> s[k] != ' ')
    ensures SkipSpaces(s, i) == k
    decreases k - i
  {
    if i < k {
      SkipsSpaces(s, i + 1, k);
    }
  }

  lemma ColonIs(s: string, i: nat, c: nat)
    requires i <= c <= |s| && (forall j :: i <= j < c ==> s[j] != ':') && (c < |s| ==> s[c] == ':')
    ensures IndexOf(s, ':', i) == c
  {
  }

  /** Nothing but spaces is no URL. */
  lemma BlankIsNoUrl(spaces: string)
    requires Spaces(spaces)
    ensures SchemeOf(spaces) == Error
  {
    SkipsSpaces(spaces, 0, |spaces|);
  }

  /** Text before the first colon is a scheme if it is a known one, or if a slash or nothing
      comes behind the colon; otherwise it is left for the authority. */
  lemma SchemeBeforeColon(spaces: string, t: string, rest: string)
    requires Spaces(spaces) && (forall i :: 0 <= i < |t| ==> t[i] != ':')
    requires t != "" ==> t[0] != ' ' && t[0] != '/'
    ensures SchemeOf(spaces + t + ":" + rest) ==
      Ok(if KnownScheme(t) || rest == "" || rest[0] == '/' then Scheme(NonEmpty(t), |spaces| + |t|)
         else Scheme(None, |spaces|))
  {
    hide Lower, KnownScheme, SkipSpaces, IndexOf, NonEmpty;
    var s, i := spaces + t + ":" + rest, |spaces|;
    var c := i + |t|;
    SchemePlaces(spaces, t, rest);
    SkipsSpaces(s, 0, i);
    ColonIs(s, i, c);
    if |s| - i >= 5 && s[i..i + 5] == "http:" {
      HttpIsKnown(s, i, t);
      HttpIsSome();
    }
  }

  lemma HttpIsSome()
    ensures NonEmpty("http") == Some("http")
  {
  }

  lemma SchemePlaces(spaces: string, t: string, rest: string)
    ensures var s, i := spaces + t + ":" + rest, |spaces|; var c := i + |t|;
      && |s| == c + 1 + |rest| && s[i..c] == t && s[c] == ':' && (rest != "" ==> s[c + 1] == rest[0])
      && (t != "" ==> s[i] == t[0])
      && (forall j :: 0 <= j < i ==> s[j] == spaces[j]) && forall j :: i <= j < c ==> s[j] == t[j - i]
  {
  }

  lemma HttpIsKnown(s: string, i: nat, t: string)
    requires i + |t| < |s| && s[i..i + |t|] == t && s[i + |t|] == ':' && (forall j :: 0 <= j < |t| ==> t[j] != ':')
    requires |s| - i >= 5 && s[i..i + 5] == "http:"
    ensures t == "http" && KnownScheme(t)
  {
    var w := s[i..i + 5];
    assert w[4] == s[i + 4] && w[0] == s[i] && w[1] == s[i + 1] && w[2] == s[i + 2] && w[3] == s[i + 3];
    assert |t| == 4;
    assert t == s[i..i + 4] == w[..4] == "http";
    assert Lower("http") == "http" && SCHEMES[3] == "http";
  }

  /** Without a colon, or with a slash in front, there is no scheme. */
  lemma NoScheme(spaces: string, t: string)
    requires Spaces(spaces) && t != "" && t[0] != ' ' && (t[0] == '/' || forall i :: 0 <= i < |t| ==> t[i] != ':')
    ensures SchemeOf(spaces + t) == Ok(Scheme(None, |spaces|))
  {
    hide Lower;
    var s, i := spaces + t, |spaces|;
    assert s[i] == t[0] && forall j :: i <= j < |s| ==> s[j] == t[j - i];
    assert forall j :: 0 <= j < i ==> s[j] == spaces[j];
    SkipsSpaces(s, 0, i);
    if |s| - i >= 5 {
      assert s[i..i + 5][0] == t[0] && s[i..i + 5][4] == t[4];
    }
    if t[0] != '/' {
      ColonIs(s, i, |s|);
    }
  }

  // ------------------------------------------------------- in front of the authority

  /** One colon and up to two slashes are skipped, and something must come behind them. */
  lemma LeadIs(s: string, i: nat)
    requires i <= |s|
    ensures Has(s, i, "://") ==> SkipLead(s, i) == if |s| > i + 3 then Ok(i + 3) else Error
    ensures Has(s, i, ":/") && !Has(s, i, "://") ==> SkipLead(s, i) == if |s| > i + 2 then Ok(i + 2) else Error
    ensures Has(s, i, ":") && !Has(s, i, ":/") ==> SkipLead(s, i) == if |s| > i + 1 then Ok(i + 1) else Error
    ensures !Has(s, i, ":") ==> SkipLead(s, i) == Ok(i)
  {
    if |s| - i > 3 {
      var w := s[i..i + 3];
      assert w[0] == s[i] && w[1] == s[i + 1] && w[2] == s[i + 2];
      assert Has(s, i, "://") <==> w == "://";
    }
  }

  // ---------------------------------------------------------------------- authority

  /** No character that opens or closes anything. */
  predicate Bare(t: string) {
    forall i :: 0 <= i < |t| ==> t[i] !in "@/[]"
  }

  function Fresh(k: nat, user: string, passw: string): (st: Scan) {
    Scan(k, k, -1, user, passw, "", 0, -1)
  }

  // Over bare text up to `k`: colons are counted and the last one is kept.
  lemma {:induction false} OverBare(s: string, st: Scan, k: nat) returns (st': Scan)
    requires st.Scan? && Sane(s, st) && st.host == "" && st.cur <= k <= |s|
    requires forall j :: st.cur <= j < k ==> s[j] !in "@/[]"
    ensures Sane(s, st') && Steps(s, st) == Steps(s, st')
    ensures st.nColon + Colons(s, st.cur, k) > MAX_COLON && st.nColon <= MAX_COLON ==> st'.Fail?
    ensures st.nColon + Colons(s, st.cur, k) <= MAX_COLON ==>
      && st'.Scan? && Sane(s, st')
      && st' == st.(cur := k, nColon := st.nColon + Colons(s, st.cur, k), lastColon := st'.lastColon)
      && if Colons(s, st.cur, k) == 0 then st'.lastColon == st.lastColon
         else st.cur <= st'.lastColon < k && s[st'.lastColon] == ':' && Colons(s, st'.lastColon + 1, k) == 0
    decreases k - st.cur
  {
    hide Steps;
    if st.cur < k {
      OneStep(s, st);
      if s[st.cur] == ':' && st.nColon >= MAX_COLON {
        st' := Fail;
      } else {
        st' := OverBare(s, Step(s, st), k);
      }
    } else {
      st' := st;
    }
  }

  /** Bare text up to a slash or the end is the host, unless it holds one colon or eight:
      then the host ends at the last colon, and what is behind it is the port and must not
      be empty. More than eight colons are an error. */
  lemma BareAuthority(s: string, k: nat, user: string, passw: string, t: string)
    requires Bare(t) && Has(s, k, t) && Ended(s, k + |t|)
    ensures var st := Steps(s, Fresh(k, user, passw)); var n := Colons(t, 0, |t|); var e := k + |t|;
      if n > MAX_COLON then st.Fail?
      else
        && st.Scan? && st.host == "" && st.user == user && st.passw == passw && st.cur == e && st.base == k && st.nColon == n
        && (n == 0 || (2 <= n < MAX_COLON) ==> Finish(s, st) == Ok(Authority(
              NonEmpty(user), PasswordOf(user, passw), NonEmpty(t), None, 0, Behind(s, e))))
        && (n == 1 || n == MAX_COLON ==>
              && k <= st.lastColon < e && t[st.lastColon - k] == ':' && Colons(s, st.lastColon + 1, e) == 0
              && var h, p := t[..st.lastColon - k], t[st.lastColon - k + 1..];
                 Finish(s, st) == if p == "" then Error else Ok(Authority(
                   NonEmpty(user), PasswordOf(user, passw), NonEmpty(h), Some(p), PortValue(p), Behind(s, e))))
  {
    hide Steps, PortValue, Finish;
    var st0, e := Fresh(k, user, passw), k + |t|;
    FreshSane(s, st0);
    ColonsOfPart(s, k, t, 0, |t|);
    var st := OverBare(s, st0, e);
    if st.Fail? {
      FailStays(s);
    } else {
      AtEnd(s, st);
      HasSlice(s, k, t);
      BareFinish(s, st, k, t);
    }
  }

  lemma FailStays(s: string)
    ensures Steps(s, Fail) == Fail
  {
  }

  function PasswordOf(user: string, passw: string): (o: Opt) {
    if user == "" then None else NonEmpty(passw)
  }

  /** Where the path starts: behind the slash. */
  function Behind(s: string, e: nat): (n: nat)
    requires e <= |s|
  {
    if e < |s| && s[e] == '/' then e + 1 else e
  }

  lemma SliceOfSlice(s: string, a: nat, b: nat, c: nat, d: nat)
    requires a <= b <= |s| && c <= d <= b - a
    ensures s[a..b][c..d] == s[a + c..a + d]
  {
    var x, y := s[a..b][c..d], s[a + c..a + d];
    assert |x| == |y| && forall i :: 0 <= i < |x| ==> x[i] == s[a + c + i] == y[i];
  }

  lemma BareFinish(s: string, st: Scan, k: nat, t: string)
    requires st.Scan? && Sane(s, st) && st.host == "" && st.base == k && st.cur == k + |t| <= |s| && s[k..st.cur] == t
    ensures st.nColon == 0 || (2 <= st.nColon < MAX_COLON) ==> Finish(s, st) == Ok(Authority(
      NonEmpty(st.user), PasswordOf(st.user, st.passw), NonEmpty(t), None, 0, Behind(s, st.cur)))
    ensures st.nColon == 1 || st.nColon == MAX_COLON ==>
      var h, p := t[..st.lastColon - k], t[st.lastColon - k + 1..];
      Finish(s, st) == if p == "" then Error else Ok(Authority(
        NonEmpty(st.user), PasswordOf(st.user, st.passw), NonEmpty(h), Some(p), PortValue(p), Behind(s, st.cur)))
  {
    hide PortValue;
    if st.nColon == 1 || st.nColon == MAX_COLON {
      SliceOfSlice(s, k, st.cur, 0, st.lastColon - k);
      SliceOfSlice(s, k, st.cur, st.lastColon - k + 1, |t|);
    }
  }

  /** An empty user is no user: the '@' is dropped. */
  lemma EmptyUser(s: string, k: nat)
    requires k < |s| && s[k] == '@'
    ensures Steps(s, Fresh(k, "", "")) == Steps(s, Fresh(k + 1, "", ""))
  {
    FreshSane(s, Fresh(k, "", ""));
    OneStep(s, Fresh(k, "", ""));
    assert s[k..k] == "";
  }

  /** A second user, a bracket that does not open its part, and a bracket that was never
      opened are errors. */
  lemma Rejected(s: string, k: nat, user: string, passw: string, t: string)
    requires Plain(t) && Has(s, k, t) && k + |t| < |s|
    ensures user != "" && s[k + |t|] == '@' ==> Steps(s, Fresh(k, user, passw)).Fail?
    ensures t != "" && s[k + |t|] == '[' ==> Steps(s, Fresh(k, user, passw)).Fail?
    ensures s[k + |t|] == ']' ==> Steps(s, Fresh(k, user, passw)).Fail?
  {
    hide Steps;
    var st := Fresh(k, user, passw);
    FreshSane(s, st);
    SkipPlain(s, st, t);
    if s[k + |t|] in "@[]" {
      OneStep(s, st.(cur := k + |t|));
    }
  }

  /** An address in brackets needs fewer than eight colons, and a slash, a colon or the end
      behind it. */
  lemma RejectedAddress(s: string, k: nat, user: string, passw: string, inner: string)
    requires Bare(inner) && Has(s, k, "[" + (inner + "]"))
    requires Colons(inner, 0, |inner|) >= MAX_COLON || (k + |inner| + 2 < |s| && s[k + |inner| + 2] != '/' && s[k + |inner| + 2] != ':')
    ensures Steps(s, Fresh(k, user, passw)).Fail?
  {
    hide Steps, Has, Bare, Colons, Sane;
    var st, e := Fresh(k, user, passw), k + 1 + |inner|;
    HasParts(s, k, "[", inner + "]");
    HasParts(s, k + 1, inner, "]");
    HasFirst(s, k, "[");
    HasFirst(s, e, "]");
    FreshSane(s, st);
    var st1 := st.(cur := k + 1, bracket := k);
    OpenStep(s, st);
    ColonsOfPart(s, k + 1, inner, 0, |inner|);
    BareIn(s, k + 1, inner);
    var st' := OverBare(s, st1, e);
    FailStays(s);
    if st'.Scan? {
      BadClose(s, st');
    }
  }

  lemma BareIn(s: string, k: nat, t: string)
    requires Bare(t) && Has(s, k, t)
    ensures forall j :: k <= j < k + |t| ==> s[j] !in "@/[]"
  {
  }

  lemma OpenStep(s: string, st: Scan)
    requires st.Scan? && Sane(s, st) && st.cur < |s| && s[st.cur] == '[' && st.bracket == -1 && st.base == st.cur
    ensures Same(s, st, st.(cur := st.cur + 1, bracket := st.cur))
  {
    OneStep(s, st);
  }

  lemma BadClose(s: string, st: Scan)
    requires st.Scan? && Sane(s, st) && st.cur < |s| && s[st.cur] == ']'
    requires st.nColon >= MAX_COLON || (st.cur + 1 < |s| && s[st.cur + 1] != '/' && s[st.cur + 1] != ':')
    ensures Steps(s, st).Fail?
  {
    OneStep(s, st);
  }

  // -------------------------------------------------------------------- path and tail

  predicate Lacks(t: string, cs: string) {
    forall i :: 0 <= i < |t| ==> t[i] !in cs
  }

  /** A component behind its mark, also when it is empty. */
  function WithMark(mark: string, o: Opt): (t: string) {
    if o.Some? then mark + o.s else ""
  }

  lemma AnyMarkStage(s: string, k: nat, mark: string, o: Opt, cs: string, rest: string)
    requires |mark| == 1 && Has(s, k, WithMark(mark, o) + rest) && |s| == k + |WithMark(mark, o) + rest|
    requires (o.Some? ==> Lacks(o.s, cs)) && (rest != "" ==> rest[0] in cs && rest[0] != mark[0])
    ensures o.Some? <==> k < |s| && s[k] == mark[0]
    ensures o.Some? ==> First(s, k + 1, cs) == k + |WithMark(mark, o)| && s[k + 1..k + |WithMark(mark, o)|] == o.s
    ensures o.None? ==> |WithMark(mark, o)| == 0
    ensures Has(s, k + |WithMark(mark, o)|, rest)
  {
    hide First;
    HasParts(s, k, WithMark(mark, o), rest);
    if o.Some? {
      HasParts(s, k, mark, o.s);
      HasSlice(s, k + 1, o.s);
      FirstIs(s, k + 1, cs, k + |WithMark(mark, o)|);
    }
  }

  lemma AnyMarksDiffer(q: Opt, f: Opt)
    ensures var a, b := WithMark("?", q), WithMark("#", f);
      && (a + b != "" ==> (a + b)[0] in "?#" && (a + b)[0] in ";?#" && (a + b)[0] != ';')
      && (b != "" ==> b[0] in "#" && b[0] != '?')
  {
  }

  lemma FirstMark(params: Opt, query: Opt, fragment: Opt)
    ensures var t := WithMark(";", params) + (WithMark("?", query) + WithMark("#", fragment));
      t != "" ==> t[0] in ";?#"
  {
  }

  /** Everything behind the authority is the path up to the first mark, the parameters
      behind a semicolon up to '?' or '#', the query up to '#', and the fragment; present but
      empty components are kept apart from absent ones, except for the path. */
  lemma TailIs(s: string, i: nat, path: string, params: Opt, query: Opt, fragment: Opt)
    requires Lacks(path, ";?#") && (params.Some? ==> Lacks(params.s, "?#")) && (query.Some? ==> Lacks(query.s, "#"))
    requires i <= |s| && s[i..] == path + (WithMark(";", params) + (WithMark("?", query) + WithMark("#", fragment)))
    ensures TailOf(s, i) == Tail(NonEmpty(path), params, query, fragment)
  {
    hide First, NonEmpty, Has, WithMark, Lacks, TailOf;
    var m, q, f := WithMark(";", params), WithMark("?", query), WithMark("#", fragment);
    var p := i + |path|;
    FirstMark(params, query, fragment);
    PathEnds(s, i, path, m + (q + f));
    MarkStages(s, p, params, query, fragment);
    TailAssembled(s, i, p, p + |m|, p + |m| + |q|, NonEmpty(path), params, query, fragment);
  }

  // Where the components behind the path stand.
  lemma MarkStages(s: string, p: nat, params: Opt, query: Opt, fragment: Opt)
    requires (params.Some? ==> Lacks(params.s, "?#")) && (query.Some? ==> Lacks(query.s, "#"))
    requires var t := WithMark(";", params) + (WithMark("?", query) + WithMark("#", fragment)); Has(s, p, t) && |s| == p + |t|
    ensures var m, q := p + |WithMark(";", params)|, p + |WithMark(";", params)| + |WithMark("?", query)|;
      && m <= q <= |s| && (params.Some? <==> p < |s| && s[p] == ';') && (query.Some? <==> m < |s| && s[m] == '?')
      && (fragment.Some? <==> q < |s| && s[q] == '#')
      && (if params.Some? then First(s, p + 1, "?#") == m && s[p + 1..m] == params.s else m == p)
      && (if query.Some? then First(s, m + 1, "#") == q && s[m + 1..q] == query.s else q == m)
      && (fragment.Some? ==> s[q + 1..] == fragment.s)
  {
    hide First, Has, WithMark, Lacks;
    var m, q, f := WithMark(";", params), WithMark("?", query), WithMark("#", fragment);
    AnyMarksDiffer(query, fragment);
    AnyMarkStage(s, p, ";", params, "?#", q + f);
    AnyMarkStage(s, p + |m|, "?", query, "#", f);
    assert f + "" == f;
    EmptyLacks(fragment);
    AnyMarkStage(s, p + |m| + |q|, "#", fragment, "", "");
  }

  lemma PathEnds(s: string, i: nat, path: string, tail: string)
    requires Lacks(path, ";?#") && i <= |s| && s[i..] == path + tail && (tail != "" ==> tail[0] in ";?#")
    ensures var p := i + |path|; First(s, i, ";?#") == p && s[i..p] == path && Has(s, p, tail) && |s| == p + |tail|
  {
    hide First;
    HasRest(s, i, path + tail);
    HasParts(s, i, path, tail);
    HasSlice(s, i, path);
    FirstIs(s, i, ";?#", i + |path|);
  }

  lemma EmptyLacks(o: Opt)
    ensures o.Some? ==> Lacks(o.s, "")
  {
  }

  lemma HasRest(s: string, i: nat, t: string)
    requires i <= |s| && s[i..] == t
    ensures Has(s, i, t)
  {
    forall j | i <= j < i + |t|
      ensures s[j] == t[j - i]
    {
      assert s[i..][j - i] == s[j];
    }
  }

  // --------------------------------------------------------------------------- ports

  /** `t` spells the decimal digits `vs`. */
  ghost predicate SpellsDecimal(t: string, vs: seq<nat>) {
    |t| == |vs| && forall i :: 0 <= i < |vs| ==> vs[i] < 10 && t[i] == DIGITS[vs[i]]
  }

  function Decimal(vs: seq<nat>): (n: nat) {
    if |vs| == 0 then 0 else Decimal(vs[..|vs| - 1]) * 10 + vs[|vs| - 1]
  }

  lemma DigitInSixteenBits(n: nat, v: nat)
    ensures (n % 0x1_0000 * 10 + v) % 0x1_0000 == (n * 10 + v) % 0x1_0000
  {
    var q := n / 0x1_0000;
    assert n == n % 0x1_0000 + q * 0x1_0000;
    WholeTurns(n % 0x1_0000 * 10 + v, 10 * q);
  }

  lemma WholeTurns(a: nat, k: nat)
    ensures (a + k * 0x1_0000) % 0x1_0000 == a % 0x1_0000
  {
  }

  lemma PortStep(t: string, i: nat, n: nat, v: nat)
    requires i < |t| && v < 10 && t[i] == DIGITS[v]
    ensures PortFrom(t, i, n) == PortFrom(t, i + 1, (n * 10 + v) % 0x1_0000)
  {
    assert t[i] as int == '0' as int + v;
  }

  lemma {:induction false} PortDigits(t: string, vs: seq<nat>, i: nat)
    requires i <= |vs| <= |t| && SpellsDecimal(t[..|vs|], vs)
    ensures PortFrom(t, i, Decimal(vs[..i]) % 0x1_0000) == PortFrom(t, |vs|, Decimal(vs) % 0x1_0000)
    decreases |vs| - i
  {
    hide PortFrom;
    if i < |vs| {
      assert t[..|vs|][i] == t[i] == DIGITS[vs[i]];
      PortStep(t, i, Decimal(vs[..i]) % 0x1_0000, vs[i]);
      assert vs[..i + 1][..i] == vs[..i];
      var n := Decimal(vs[..i]);
      DigitInSixteenBits(n, vs[i]);
      PortDigits(t, vs, i + 1);
    } else {
      assert vs[..i] == vs;
    }
  }

  /** The port number is the number its leading digits spell, in sixteen bits. */
  lemma PortIs(t: string, vs: seq<nat>)
    requires |vs| <= |t| && SpellsDecimal(t[..|vs|], vs) && (|t| > |vs| ==> t[|vs|] !in DIGITS)
    ensures PortValue(t) == Decimal(vs) % 0x1_0000
  {
    hide PortFrom, Decimal;
    PortDigits(t, vs, 0);
    NoDecimal(vs);
    PortStops(t, |vs|, Decimal(vs) % 0x1_0000);
  }

  lemma NoDecimal(vs: seq<nat>)
    ensures Decimal(vs[..0]) == 0
  {
  }

  lemma PortStops(t: string, i: nat, n: nat)
    requires i <= |t| && (i < |t| ==> t[i] !in DIGITS)
    ensures PortFrom(t, i, n) == n
  {
    if i < |t| {
      DigitsByMembers(t[i]);
    }
  }

  // ------------------------------------------------------------------------ printing

  function NotEmpty(o: Opt): (o': Opt) {
    if o == Some("") then None else o
  }

  /** The URL that a printed URL stands for: addresses in brackets, no empty parameters,
      query or fragment, and no port of number zero. */
  function Normal(u: Url): (v: Url) {
    var port := u.host.Some? && u.port.Some? && u.portNum != 0;
    u.(password := if u.user.Some? then u.password else None,
       host := if u.host.Some? && NeedsBrackets(u.host.s) then Some("[" + u.host.s + "]") else u.host,
       port := if port then u.port else None, portNum := if port then u.portNum else 0,
       path := NotEmpty(u.path),
       params := NotEmpty(u.params), query := NotEmpty(u.query), fragment := NotEmpty(u.fragment))
  }

  lemma NormalPrintsSame(u: Url)
    ensures Print(Normal(u)) == Print(u)
  {
    hide Lower;
    var v := Normal(u);
    assert HostText(v) == HostText(u) by {
      if u.host.Some? && NeedsBrackets(u.host.s) {
        assert v.host.s[0] == '[';
      }
    }
    assert UserText(v) == UserText(u) && SchemeText(v) == SchemeText(u) && TailText(v) == TailText(u);
  }

  /** Parsing a printed URL gives its normal form. */
  lemma ParseNormalizes(u: Url)
    requires WellFormed(Normal(u))
    ensures Parse(Print(u)) == Ok(Normal(u))
  {
    hide Print, Parse, Normal, WellFormed;
    NormalPrintsSame(u);
    ParseUndoesPrint(Normal(u));
  }
}

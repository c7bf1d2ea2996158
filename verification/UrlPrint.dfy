/** Printing a URL, its length, and parsing what was printed. */
module UrlPrint {
  import opened HttpChars
  import opened UrlParse
  import opened MimePrint

  // ---------------------------------------------------------------------- printing

  function SchemeText(u: Url): (t: string) {
    if u.scheme.Some? then u.scheme.s + "://" else ""
  }

  function UserText(u: Url): (t: string) {
    if u.user.None? then ""
    else u.user.s + (if u.password.Some? then ":" + u.password.s else "") + "@"
  }

  /** An address with a colon among its first five characters is put in brackets. */
  predicate NeedsBrackets(h: string) {
    |h| > 0 && h[0] != '[' && ':' in h[..Min(|h|, 5)]
  }

  function PortText(u: Url): (t: string) {
    if u.port.Some? && u.portNum != 0 then ":" + u.port.s else ""
  }

  function HostText(u: Url): (t: string) {
    if u.host.None? then ""
    else (if NeedsBrackets(u.host.s) then "[" + u.host.s + "]" else u.host.s) + PortText(u)
  }

  /** A component and its mark, unless it is absent or empty. */
  function Marked(mark: string, o: Opt): (t: string) {
    if o.Some? && |o.s| > 0 then mark + o.s else ""
  }

  function TailText(u: Url): (t: string) {
    (if u.path.Some? then u.path.s else "") + (Marked(";", u.params) + (Marked("?", u.query) + Marked("#", u.fragment)))
  }

  /** What `url_print` prints. */
  function Print(u: Url): (t: string) {
    SchemeText(u) + (UserText(u) + (HostText(u) + ("/" + TailText(u))))
  }

  // Print one piece of a longer text.
  method Emit(p: Printer, piece: string, ghost rest: string) returns (ok: bool)
    requires p.Valid()
    modifies p, p.buf
    ensures p.Valid()
    ensures if ok then PieceOut(p.View(), rest) == PieceOut(old(p.View()), piece + rest)
            else Printed(p.View(), false) == PieceOut(old(p.View()), piece + rest)
  {
    PieceOutConcat(p.View(), piece, rest);
    ok := p.MemPrint(piece);
  }

  /** `url_print`: a window on the printed URL, like the one on a header. */
  method PrintUrl(p: Printer, u: Url) returns (ok: bool)
    requires p.Valid()
    modifies p, p.buf
    ensures p.Valid() && Printed(p.View(), ok) == PieceOut(old(p.View()), Print(u))
  {
    hide PieceOut;
    ghost var host, tail := HostText(u) + ("/" + TailText(u)), "/" + TailText(u);
    ok := true;
    if u.scheme.Some? {
      ok := PrintTwo(p, u.scheme.s, "://", UserText(u) + host);
      if !ok { return; }
    }
    assert "" + (UserText(u) + host) == UserText(u) + host;
    if u.user.Some? {
      ok := PrintUser(p, u, host);
      if !ok { return; }
    }
    assert "" + host == host;
    if u.host.Some? {
      ok := PrintHost(p, u, tail);
      if !ok { return; }
    }
    assert "" + tail == tail;
    ok := Emit(p, "/", TailText(u));
    if !ok { return; }
    ok := PrintTail(p, u);
  }

  method PrintTwo(p: Printer, a: string, b: string, ghost rest: string) returns (ok: bool)
    requires p.Valid()
    modifies p, p.buf
    ensures p.Valid()
    ensures if ok then PieceOut(p.View(), rest) == PieceOut(old(p.View()), a + b + rest)
            else Printed(p.View(), false) == PieceOut(old(p.View()), a + b + rest)
  {
    hide PieceOut;
    assert a + b + rest == a + (b + rest);
    ok := Emit(p, a, b + rest);
    if !ok { return; }
    ok := Emit(p, b, rest);
  }

  method PrintUser(p: Printer, u: Url, ghost rest: string) returns (ok: bool)
    requires p.Valid() && u.user.Some?
    modifies p, p.buf
    ensures p.Valid()
    ensures if ok then PieceOut(p.View(), rest) == PieceOut(old(p.View()), UserText(u) + rest)
            else Printed(p.View(), false) == PieceOut(old(p.View()), UserText(u) + rest)
  {
    hide PieceOut;
    if u.password.Some? {
      assert UserText(u) + rest == u.user.s + (":" + u.password.s + ("@" + rest));
      ok := Emit(p, u.user.s, ":" + u.password.s + ("@" + rest));
      if !ok { return; }
      ok := PrintTwo(p, ":", u.password.s, "@" + rest);
      if !ok { return; }
    } else {
      assert UserText(u) + rest == u.user.s + ("@" + rest);
      ok := Emit(p, u.user.s, "@" + rest);
      if !ok { return; }
    }
    ok := Emit(p, "@", rest);
  }

  method PrintHost(p: Printer, u: Url, ghost rest: string) returns (ok: bool)
    requires p.Valid() && u.host.Some?
    modifies p, p.buf
    ensures p.Valid()
    ensures if ok then PieceOut(p.View(), rest) == PieceOut(old(p.View()), HostText(u) + rest)
            else Printed(p.View(), false) == PieceOut(old(p.View()), HostText(u) + rest)
  {
    hide PieceOut;
    ghost var after := PortText(u) + rest;
    if NeedsBrackets(u.host.s) {
      assert HostText(u) + rest == "[" + u.host.s + ("]" + after);
      ok := PrintTwo(p, "[", u.host.s, "]" + after);
      if !ok { return; }
      ok := Emit(p, "]", after);
      if !ok { return; }
    } else {
      assert HostText(u) + rest == u.host.s + after;
      ok := Emit(p, u.host.s, after);
      if !ok { return; }
    }
    if u.port.Some? && u.portNum != 0 {
      ok := PrintTwo(p, ":", u.port.s, rest);
    } else {
      assert "" + rest == rest;
    }
  }

  method PrintTail(p: Printer, u: Url) returns (ok: bool)
    requires p.Valid()
    modifies p, p.buf
    ensures p.Valid() && Printed(p.View(), ok) == PieceOut(old(p.View()), TailText(u))
  {
    hide PieceOut;
    ghost var q, f := Marked("?", u.query) + Marked("#", u.fragment), Marked("#", u.fragment);
    ok := true;
    if u.path.Some? {
      ok := Emit(p, u.path.s, Marked(";", u.params) + q);
      if !ok { return; }
    } else {
      assert TailText(u) == Marked(";", u.params) + q;
    }
    ok := PrintMarked(p, ";", u.params, q);
    if !ok { return; }
    ok := PrintMarked(p, "?", u.query, f);
    if !ok { return; }
    assert f + "" == f;
    ok := PrintMarked(p, "#", u.fragment, "");
    PieceOutNothing(p.View());
  }

  method PrintMarked(p: Printer, mark: string, o: Opt, ghost rest: string) returns (ok: bool)
    requires p.Valid()
    modifies p, p.buf
    ensures p.Valid()
    ensures if ok then PieceOut(p.View(), rest) == PieceOut(old(p.View()), Marked(mark, o) + rest)
            else Printed(p.View(), false) == PieceOut(old(p.View()), Marked(mark, o) + rest)
  {
    hide PieceOut;
    ok := true;
    if o.Some? && |o.s| > 0 {
      ok := PrintTwo(p, mark, o.s, rest);
    } else {
      assert "" + rest == rest;
    }
  }

  // ------------------------------------------------------------------------ length

  predicate IsFile(o: Opt) {
    o.Some? && Lower(o.s) == "file"
  }

  function SchemePart(u: Url): (n: nat) {
    if u.scheme.None? then 0 else |u.scheme.s| + (if IsFile(u.scheme) then 1 else 3)
  }

  function UserPart(u: Url): (n: nat) {
    if u.user.None? then 0 else |u.user.s| + 1 + (if u.password.Some? then |u.password.s| + 1 else 0)
  }

  function HostPart(u: Url): (n: nat) {
    if u.host.None? then 0 else |u.host.s| + (if u.port.Some? && u.portNum != 0 then |u.port.s| + 1 else 0)
  }

  function PathPart(u: Url): (n: nat) {
    if u.path.Some? then |u.path.s| + 1 else 1
  }

  function MarkedPart(o: Opt): (n: nat) {
    if o.Some? then |o.s| + 1 else 0
  }

  /** `url_length_get`. */
  function LengthOf(u: Url): (n: nat) {
    SchemePart(u) + UserPart(u) + HostPart(u) + PathPart(u)
    + MarkedPart(u.params) + MarkedPart(u.query) + MarkedPart(u.fragment)
  }

  function Count(b: bool): (n: nat) {
    if b then 1 else 0
  }

  predicate IsEmpty(o: Opt) {
    o == Some("")
  }

  /** Characters printed that the length leaves out: the slashes after "file:" and the
      brackets put around an address. */
  function Uncounted(u: Url): (n: nat) {
    2 * Count(u.scheme.Some? && Lower(u.scheme.s) == "file") + 2 * Count(u.host.Some? && NeedsBrackets(u.host.s))
  }

  /** Marks counted that are not printed because their component is empty. */
  function Unprinted(u: Url): (n: nat) {
    Count(IsEmpty(u.params)) + Count(IsEmpty(u.query)) + Count(IsEmpty(u.fragment))
  }

  /** The length is that of the printed URL exactly when the two errors cancel, so in
      particular for every URL that is not a file, needs no brackets and has no component
      that is present but empty. */
  lemma LengthIsPrinted(u: Url)
    ensures LengthOf(u) + Uncounted(u) == |Print(u)| + Unprinted(u)
    ensures LengthOf(u) == |Print(u)| <==> Uncounted(u) == Unprinted(u)
  {
    hide SchemeText, UserText, HostText, PathPart, MarkedPart, Marked, SchemePart, UserPart, HostPart, IsEmpty, Count;
    SchemeLength(u);
    HostLength(u);
    PathLength(u);
    MarkedLength(";", u.params);
    MarkedLength("?", u.query);
    MarkedLength("#", u.fragment);
  }

  lemma SchemeLength(u: Url)
    ensures |SchemeText(u)| == SchemePart(u) + 2 * Count(u.scheme.Some? && Lower(u.scheme.s) == "file") && |UserText(u)| == UserPart(u)
  {
  }

  lemma HostLength(u: Url)
    ensures |HostText(u)| == HostPart(u) + 2 * Count(u.host.Some? && NeedsBrackets(u.host.s))
  {
  }

  lemma PathLength(u: Url)
    ensures (if u.path.Some? then |u.path.s| else 0) + 1 == PathPart(u)
  {
  }

  lemma MarkedLength(mark: string, o: Opt)
    requires |mark| == 1
    ensures MarkedPart(o) == |Marked(mark, o)| + Count(IsEmpty(o))
  {
  }

  // -------------------------------------------------------------------- round trip

  /** Characters without a meaning in the authority. */
  predicate Plain(t: string) {
    forall i :: 0 <= i < |t| ==> t[i] !in ":@/[]"
  }

  /** Colons of t[a..b]. */
  function Colons(t: string, a: nat, b: nat): (n: nat)
    requires a <= b <= |t|
    decreases b - a
  {
    if a == b then 0 else (if t[a] == ':' then 1 else 0) + Colons(t, a + 1, b)
  }

  predicate Bracketed(h: string) {
    && |h| >= 2 && h[0] == '[' && h[|h| - 1] == ']'
    && (forall i :: 1 <= i < |h| - 1 ==> h[i] !in "@/[]")
    && Colons(h, 1, |h| - 1) < MAX_COLON
  }

  predicate Without(t: string, cs: string) {
    |t| > 0 && forall i :: 0 <= i < |t| ==> t[i] !in cs
  }

  predicate SchemeOk(u: Url) {
    u.scheme.Some? && Without(u.scheme.s, ":") && u.scheme.s[0] != ' ' && u.scheme.s[0] != '/'
  }

  predicate UserOk(u: Url) {
    && (u.user.Some? ==> |u.user.s| > 0 && Plain(u.user.s))
    && (u.password.Some? ==> u.user.Some? && |u.password.s| > 0 && Plain(u.password.s))
  }

  predicate HostOk(u: Url) {
    && (u.host.Some? ==> |u.host.s| > 0 && (Plain(u.host.s) || Bracketed(u.host.s)))
    && (u.port.Some? ==> u.host.Some? && |u.port.s| > 0 && Plain(u.port.s) && u.portNum == PortValue(u.port.s) > 0)
    && (u.port.None? ==> u.portNum == 0)
  }

  predicate TailOk(u: Url) {
    && (u.path.Some? ==> Without(u.path.s, ";?#")) && (u.params.Some? ==> Without(u.params.s, "?#"))
    && (u.query.Some? ==> Without(u.query.s, "#")) && (u.fragment.Some? ==> |u.fragment.s| > 0)
  }

  /** Components that are absent or not empty and hold none of the marks that would end them
      early. */
  predicate WellFormed(u: Url) {
    SchemeOk(u) && UserOk(u) && HostOk(u) && TailOk(u)
  }

  /** `t` stands in `s` at `k`. */
  ghost predicate Has(s: string, k: nat, t: string) {
    k + |t| <= |s| && forall j :: k <= j < k + |t| ==> s[j] == t[j - k]
  }

  lemma HasSlice(s: string, k: nat, t: string)
    requires Has(s, k, t)
    ensures s[k..k + |t|] == t
  {
  }

  lemma HasParts(s: string, k: nat, a: string, b: string)
    requires Has(s, k, a + b)
    ensures Has(s, k, a) && Has(s, k + |a|, b)
  {
    forall j | k <= j < k + |a|
      ensures s[j] == a[j - k]
    {
      assert (a + b)[j - k] == a[j - k];
    }
    forall j | k + |a| <= j < k + |a| + |b|
      ensures s[j] == b[j - k - |a|]
    {
      assert (a + b)[j - k] == b[j - k - |a|];
    }
  }

  // ------------------------------------------------------------ steps over a stretch

  lemma {:induction false} SkipPlain(s: string, st: Scan, t: string)
    requires st.Scan? && Sane(s, st) && Has(s, st.cur, t) && Plain(t) && st.host == ""
    ensures Sane(s, st.(cur := st.cur + |t|)) && Steps(s, st) == Steps(s, st.(cur := st.cur + |t|))
    decreases |t|
  {
    hide Steps;
    if |t| > 0 {
      assert s[st.cur] == t[0];
      OneStep(s, st);
      SkipPlain(s, Step(s, st), t[1..]);
    }
  }

  // Behind a closed bracket and a colon the host is known already.
  lemma {:induction false} SkipPort(s: string, st: Scan, t: string)
    requires st.Scan? && Sane(s, st) && Has(s, st.cur, t) && Plain(t) && st.nColon == MAX_COLON
    ensures Sane(s, st.(cur := st.cur + |t|)) && Steps(s, st) == Steps(s, st.(cur := st.cur + |t|))
    decreases |t|
  {
    hide Steps;
    if |t| > 0 {
      assert s[st.cur] == t[0];
      OneStep(s, st);
      SkipPort(s, Step(s, st), t[1..]);
    }
  }

  lemma {:induction false} SkipInner(s: string, st: Scan, k: nat) returns (st': Scan)
    requires st.Scan? && Sane(s, st) && st.host == "" && st.cur <= k <= |s|
    requires forall j :: st.cur <= j < k ==> s[j] !in "@/[]"
    requires st.nColon + Colons(s, st.cur, k) < MAX_COLON
    ensures st'.Scan? && Sane(s, st') && Steps(s, st) == Steps(s, st')
    ensures st'.cur == k && st'.base == st.base && st'.bracket == st.bracket && st'.host == ""
    ensures st'.user == st.user && st'.passw == st.passw && st'.nColon < MAX_COLON
    decreases k - st.cur
  {
    hide Steps;
    if st.cur < k {
      OneStep(s, st);
      st' := SkipInner(s, Step(s, st), k);
    } else {
      st' := st;
    }
  }

  lemma {:induction false} ColonsOfPart(s: string, k: nat, t: string, a: nat, b: nat)
    requires Has(s, k, t) && a <= b <= |t|
    ensures Colons(s, k + a, k + b) == Colons(t, a, b)
    decreases b - a
  {
    if a < b {
      assert s[k + a] == t[a];
      ColonsOfPart(s, k, t, a + 1, b);
    }
  }

  // ----------------------------------------------------------------- the authority

  function TextOf(o: Opt): (t: string) {
    if o.None? then "" else o.s
  }

  ghost predicate Same(s: string, a: Scan, b: Scan) {
    a.Scan? && b.Scan? && Sane(s, a) && Sane(s, b) && Steps(s, a) == Steps(s, b)
  }

  lemma ColonStep(s: string, st: Scan)
    requires st.Scan? && Sane(s, st) && st.cur < |s| && s[st.cur] == ':' && st.nColon < MAX_COLON
    ensures Same(s, st, st.(cur := st.cur + 1, nColon := st.nColon + 1, lastColon := st.cur))
  {
    OneStep(s, st);
  }

  // The '@' behind a user, and behind a user and a password.
  lemma UserStep(s: string, st: Scan)
    requires st.Scan? && Sane(s, st) && st.cur < |s| && s[st.cur] == '@' && st.user == "" && st.nColon == 0
    ensures Same(s, st, st.(cur := st.cur + 1, base := st.cur + 1, user := s[st.base..st.cur]))
  {
    OneStep(s, st);
  }

  lemma PasswordStep(s: string, st: Scan)
    requires st.Scan? && Sane(s, st) && st.cur < |s| && s[st.cur] == '@' && st.user == "" && st.nColon == 1
    ensures st.base <= st.lastColon < st.cur
    ensures Same(s, st, st.(cur := st.cur + 1, base := st.cur + 1, user := s[st.base..st.lastColon],
                            passw := s[st.lastColon + 1..st.cur], nColon := 0, lastColon := -1))
  {
    OneStep(s, st);
  }

  // The closing bracket before a slash and before a port.
  lemma CloseStep(s: string, st: Scan)
    requires st.Scan? && Sane(s, st) && st.cur + 1 < |s| && s[st.cur] == ']' && st.bracket >= 0 && st.nColon < MAX_COLON
    ensures s[st.cur + 1] == '/' ==>
      Same(s, st, st.(cur := st.cur + 1, host := s[st.bracket..st.cur + 1], lastColon := -1))
    ensures s[st.cur + 1] == ':' ==>
      Same(s, st, st.(cur := st.cur + 2, host := s[st.bracket..st.cur + 1], nColon := MAX_COLON, lastColon := st.cur + 1))
  {
    OneStep(s, st);
  }

  function AfterUser(u: Url, k: nat): (st: Scan) {
    Scan(k, k, -1, TextOf(u.user), TextOf(u.password), "", 0, -1)
  }

  lemma UserSteps(s: string, i: nat, u: Url)
    requires UserOk(u) && Has(s, i, UserText(u))
    ensures Steps(s, FromStart(i)) == Steps(s, AfterUser(u, i + |UserText(u)|))
  {
    hide Steps, Has, Plain;
    if u.user.Some? {
      if u.password.Some? {
        UserPassword(s, i, u);
      } else {
        var user, st := u.user.s, FromStart(i);
        assert UserText(u) == user + "@";
        HasParts(s, i, user, "@");
        HasFirst(s, i + |user|, "@");
        SkipPlain(s, st, user);
        HasSlice(s, i, user);
        UserStep(s, st.(cur := i + |user|));
      }
    }
  }

  lemma UserPassword(s: string, i: nat, u: Url)
    requires UserOk(u) && u.user.Some? && u.password.Some? && Has(s, i, UserText(u))
    ensures Steps(s, FromStart(i)) == Steps(s, AfterUser(u, i + |UserText(u)|))
  {
    hide Steps, Has, Plain, Sane;
    var user, pw, st := u.user.s, u.password.s, FromStart(i);
    var c := i + |user|;
    var text := user + (":" + (pw + "@"));
    assert UserText(u) == text;
    HasParts(s, i, user, ":" + (pw + "@"));
    HasParts(s, c, ":", pw + "@");
    HasParts(s, c + 1, pw, "@");
    HasFirst(s, c, ":");
    HasFirst(s, c + 1 + |pw|, "@");
    HasSlice(s, i, user);
    HasSlice(s, c + 1, pw);
    FreshSane(s, st);
    SkipPlain(s, st, user);
    ColonStep(s, st.(cur := c));
    var st2 := Scan(c + 1, i, -1, "", "", "", 1, c);
    SkipPlain(s, st2, pw);
    PasswordStep(s, st2.(cur := c + 1 + |pw|));
  }

  lemma HasFirst(s: string, k: nat, t: string)
    requires Has(s, k, t) && |t| > 0
    ensures k < |s| && s[k] == t[0]
  {
  }

  lemma FreshSane(s: string, st: Scan)
    requires st.Scan? && st.cur == st.base <= |s| && st.bracket == -1 && st.host == "" && st.nColon == 0 && st.lastColon == -1
    ensures Sane(s, st)
  {
  }

  /** What the authority of a printed URL parses to. */
  function Wanted(u: Url, next: nat): (a: Authority) {
    Authority(u.user, u.password, u.host, u.port, u.portNum, next)
  }

  // The text of a host and its port, and where they end.
  lemma HostPlaces(s: string, k: nat, u: Url)
    requires HostOk(u) && Has(s, k, HostText(u) + "/") && !NeedsBrackets(TextOf(u.host))
    ensures var e := k + |TextOf(u.host)|; Has(s, k, TextOf(u.host)) && s[k..e] == TextOf(u.host)
    ensures var e, n := k + |TextOf(u.host)|, k + |HostText(u)|;
      && n < |s| && s[n] == '/'
      && (u.port.None? ==> n == e)
      && (u.port.Some? ==> n == e + 1 + |u.port.s| && s[e] == ':' && Has(s, e + 1, u.port.s) && s[e + 1..n] == u.port.s)
  {
    hide Plain, Bracketed, PortValue, NeedsBrackets;
    var h, e := TextOf(u.host), k + |TextOf(u.host)|;
    assert HostText(u) == h + PortText(u);
    HasParts(s, k, HostText(u), "/");
    HasParts(s, k, h, PortText(u));
    HasSlice(s, k, h);
    if u.port.Some? {
      HasParts(s, e, ":", u.port.s);
      HasSlice(s, e + 1, u.port.s);
    }
  }

  lemma PlainHost(s: string, k: nat, u: Url)
    requires UserOk(u) && HostOk(u) && (u.host.Some? ==> Plain(u.host.s)) && Has(s, k, HostText(u) + "/")
    ensures var st := Steps(s, AfterUser(u, k)); st.Scan? && Finish(s, st) == Ok(Wanted(u, k + |HostText(u)| + 1))
  {
    hide Steps, PortValue, Has, Bracketed, HostText, NeedsBrackets, Sane, Finish;
    PlainNeedsNone(TextOf(u.host));
    HostPlaces(s, k, u);
    FreshSane(s, AfterUser(u, k));
    SkipPlain(s, AfterUser(u, k), TextOf(u.host));
    PlainEnd(s, Scan(k + |TextOf(u.host)|, k, -1, TextOf(u.user), TextOf(u.password), "", 0, -1), k, u);
  }

  // From behind the host to the slash.
  lemma PlainEnd(s: string, st: Scan, k: nat, u: Url)
    requires UserOk(u) && HostOk(u) && k + |TextOf(u.host)| <= |s| && Sane(s, st)
    requires st == Scan(k + |TextOf(u.host)|, k, -1, TextOf(u.user), TextOf(u.password), "", 0, -1)
    requires var e, n := k + |TextOf(u.host)|, k + |HostText(u)|;
      && s[k..e] == TextOf(u.host) && e <= n < |s| && s[n] == '/'
      && (u.port.None? ==> n == e)
      && (u.port.Some? ==> n == e + 1 + |u.port.s| && s[e] == ':' && Has(s, e + 1, u.port.s) && s[e + 1..n] == u.port.s)
    ensures var st' := Steps(s, st); st'.Scan? && Finish(s, st') == Ok(Wanted(u, k + |HostText(u)| + 1))
  {
    hide Steps, PortValue, Has, Plain, Bracketed, HostText, Sane, Finish;
    var e, n := st.cur, k + |HostText(u)|;
    if u.port.None? {
      AtEnd(s, st);
      NoPortFinish(s, st, u);
    } else {
      ColonStep(s, st);
      var st2 := st.(cur := e + 1, nColon := 1, lastColon := e);
      SkipPlain(s, st2, u.port.s);
      AtEnd(s, st2.(cur := n));
      PortFinish(s, st2.(cur := n), u);
    }
  }

  lemma NoPortFinish(s: string, st: Scan, u: Url)
    requires st.Scan? && Sane(s, st) && UserOk(u) && HostOk(u) && u.port.None? && st.cur < |s| && s[st.cur] == '/'
    requires st.user == TextOf(u.user) && st.passw == TextOf(u.password) && st.lastColon == -1
    requires if st.host == "" then st.nColon == 0 && s[st.base..st.cur] == TextOf(u.host) else Some(st.host) == u.host
    ensures Finish(s, st) == Ok(Wanted(u, st.cur + 1))
  {
    hide Plain, Bracketed, PortValue;
  }

  lemma PortFinish(s: string, st: Scan, u: Url)
    requires st.Scan? && Sane(s, st) && UserOk(u) && HostOk(u) && u.port.Some? && st.cur < |s| && s[st.cur] == '/'
    requires st.user == TextOf(u.user) && st.passw == TextOf(u.password)
    requires st.lastColon >= 0 && s[st.lastColon + 1..st.cur] == u.port.s
    requires if st.host == "" then st.nColon == 1 && Some(s[st.base..st.lastColon]) == u.host else Some(st.host) == u.host
    ensures Finish(s, st) == Ok(Wanted(u, st.cur + 1))
  {
    hide Plain, Bracketed, PortValue;
  }

  lemma PlainNeedsNone(h: string)
    requires Plain(h)
    ensures !NeedsBrackets(h)
  {
  }

  lemma BracketHost(s: string, k: nat, u: Url)
    requires UserOk(u) && HostOk(u) && u.host.Some? && Bracketed(u.host.s) && Has(s, k, HostText(u) + "/")
    ensures var st := Steps(s, AfterUser(u, k)); st.Scan? && Finish(s, st) == Ok(Wanted(u, k + |HostText(u)| + 1))
  {
    hide Steps, Has, HostOk, UserOk, Bracketed, HostText, NeedsBrackets, Sane, Finish;
    BracketsNeedNone(u.host.s);
    HostPlaces(s, k, u);
    var st := ToBracket(s, k, u);
    BracketEnd(s, st, k, u);
  }

  // From the closing bracket to the slash.
  lemma BracketEnd(s: string, st: Scan, k: nat, u: Url)
    requires UserOk(u) && HostOk(u) && u.host.Some? && st.Scan? && Sane(s, st) && st.nColon < MAX_COLON
    requires |u.host.s| > 0 && st.cur == k + |u.host.s| - 1 && st.bracket == k && st.cur + 1 < |s| && s[st.cur] == ']'
    requires st.user == TextOf(u.user) && st.passw == TextOf(u.password) && st.host == ""
    requires var e, n := st.cur + 1, k + |HostText(u)|;
      && s[k..e] == u.host.s && e <= n < |s| && s[n] == '/'
      && (u.port.None? ==> n == e)
      && (u.port.Some? ==> n == e + 1 + |u.port.s| && s[e] == ':' && Has(s, e + 1, u.port.s) && s[e + 1..n] == u.port.s)
    ensures var st' := Steps(s, st); st'.Scan? && Finish(s, st') == Ok(Wanted(u, k + |HostText(u)| + 1))
  {
    hide Steps, Has, HostText, Sane, Finish, Plain, Bracketed, PortValue;
    var e, n, h := st.cur + 1, k + |HostText(u)|, u.host.s;
    CloseStep(s, st);
    if u.port.None? {
      var st3 := st.(cur := e, host := h, lastColon := -1);
      AtEnd(s, st3);
      NoPortFinish(s, st3, u);
    } else {
      var st3 := st.(cur := e + 1, host := h, nColon := MAX_COLON, lastColon := e);
      SkipPort(s, st3, u.port.s);
      AtEnd(s, st3.(cur := n));
      PortFinish(s, st3.(cur := n), u);
    }
  }

  lemma BracketsNeedNone(h: string)
    requires Bracketed(h)
    ensures !NeedsBrackets(h)
  {
  }

  // From the open to the closing bracket.
  lemma ToBracket(s: string, k: nat, u: Url) returns (st': Scan)
    requires u.host.Some? && Bracketed(u.host.s) && Has(s, k, u.host.s)
    ensures st'.Scan? && Sane(s, st') && Steps(s, AfterUser(u, k)) == Steps(s, st')
    ensures k <= st'.cur < |s| && s[st'.cur] == ']' && |u.host.s| >= 2
    ensures st'.cur == k + |u.host.s| - 1 && st'.base == k && st'.bracket == k && st'.host == ""
    ensures st'.user == TextOf(u.user) && st'.passw == TextOf(u.password) && st'.nColon < MAX_COLON
  {
    hide Steps;
    var st, h := AfterUser(u, k), u.host.s;
    assert s[k] == h[0];
    OneStep(s, st);
    ColonsOfPart(s, k, h, 1, |h| - 1);
    assert forall j :: k + 1 <= j < k + |h| - 1 ==> s[j] == h[j - k];
    st' := SkipInner(s, Step(s, st), k + |h| - 1);
  }

  lemma AuthorityParses(s: string, i: nat, u: Url)
    requires UserOk(u) && HostOk(u) && Has(s, i, "://" + (UserText(u) + (HostText(u) + "/")))
    ensures AuthorityOf(s, i) == Ok(Wanted(u, i + 3 + |UserText(u)| + |HostText(u)| + 1))
  {
    hide Steps, Finish, Sane, UserText, HostText;
    HasParts(s, i, "://", UserText(u) + (HostText(u) + "/"));
    HasSlice(s, i, "://");
    HasParts(s, i + 3, UserText(u), HostText(u) + "/");
    UserSteps(s, i + 3, u);
    var k := i + 3 + |UserText(u)|;
    if u.host.Some? && Bracketed(u.host.s) {
      BracketHost(s, k, u);
    } else {
      PlainHost(s, k, u);
    }
  }

  // ------------------------------------------------------------------------ the rest

  lemma FirstIs(s: string, i: nat, cs: string, k: nat)
    requires i <= k <= |s| && (forall j :: i <= j < k ==> s[j] !in cs) && (k < |s| ==> s[k] in cs)
    ensures First(s, i, cs) == k
  {
  }

  // A marked component stands before `rest`, which starts with a mark of `cs` or is empty.
  lemma MarkStage(s: string, k: nat, mark: string, o: Opt, cs: string, rest: string)
    requires |mark| == 1 && Has(s, k, Marked(mark, o) + rest) && |s| == k + |Marked(mark, o) + rest|
    requires (o.Some? ==> Without(o.s, cs)) && (rest != "" ==> rest[0] in cs && rest[0] != mark[0])
    ensures o.Some? <==> k < |s| && s[k] == mark[0]
    ensures o.Some? ==> First(s, k + 1, cs) == k + |Marked(mark, o)| && s[k + 1..k + |Marked(mark, o)|] == o.s
    ensures o.None? ==> |Marked(mark, o)| == 0
    ensures Has(s, k + |Marked(mark, o)|, rest)
  {
    hide First;
    HasParts(s, k, Marked(mark, o), rest);
    if o.Some? {
      HasParts(s, k, mark, o.s);
      HasSlice(s, k + 1, o.s);
      FirstIs(s, k + 1, cs, k + |Marked(mark, o)|);
    }
  }

  lemma TailParses(s: string, i: nat, u: Url)
    requires TailOk(u) && Has(s, i, TailText(u)) && |s| == i + |TailText(u)|
    ensures TailOf(s, i) == Tail(u.path, u.params, u.query, u.fragment)
  {
    var m, q, f := Marked(";", u.params), Marked("?", u.query), Marked("#", u.fragment);
    MarksDiffer(u);
    hide First, Has, Marked, NonEmpty;
    var path := TextOf(u.path);
    var p := i + |path|;
    PathStage(s, i, u);
    MarkStage(s, p, ";", u.params, "?#", q + f);
    MarkStage(s, p + |m|, "?", u.query, "#", f);
    assert f + "" == f;
    MarkStage(s, p + |m| + |q|, "#", u.fragment, "", "");
    TailAssembled(s, i, p, p + |m|, p + |m| + |q|, u.path, u.params, u.query, u.fragment);
  }

  lemma MarksDiffer(u: Url)
    ensures var q, f := Marked("?", u.query), Marked("#", u.fragment);
      && (q + f != "" ==> (q + f)[0] in "?#" && (q + f)[0] != ';')
      && (f != "" ==> f[0] in "#" && f[0] != '?')
  {
  }

  // The components read off once the ends are known.
  lemma TailAssembled(s: string, i: nat, p: nat, m: nat, q: nat, path: Opt, params: Opt, query: Opt, fragment: Opt)
    requires i <= p <= m <= q <= |s| && First(s, i, ";?#") == p && NonEmpty(s[i..p]) == path
    requires (params.Some? <==> p < |s| && s[p] == ';') && (query.Some? <==> m < |s| && s[m] == '?')
    requires fragment.Some? <==> q < |s| && s[q] == '#'
    requires if params.Some? then First(s, p + 1, "?#") == m && s[p + 1..m] == params.s else m == p
    requires if query.Some? then First(s, m + 1, "#") == q && s[m + 1..q] == query.s else q == m
    requires fragment.Some? ==> s[q + 1..] == fragment.s
    ensures TailOf(s, i) == Tail(path, params, query, fragment)
  {
    hide First;
  }

  // The path ends where the first mark stands.
  lemma PathStage(s: string, i: nat, u: Url)
    requires TailOk(u) && Has(s, i, TailText(u)) && |s| == i + |TailText(u)|
    ensures First(s, i, ";?#") == i + |TextOf(u.path)| && NonEmpty(s[i..i + |TextOf(u.path)|]) == u.path
    ensures Has(s, i + |TextOf(u.path)|, Marked(";", u.params) + (Marked("?", u.query) + Marked("#", u.fragment)))
  {
    hide First;
    var m, q, f := Marked(";", u.params), Marked("?", u.query), Marked("#", u.fragment);
    var path := TextOf(u.path);
    HasParts(s, i, path, m + (q + f));
    HasSlice(s, i, path);
    HasParts(s, i + |path|, m, q + f);
    HasParts(s, i + |path| + |m|, q, f);
    FirstIs(s, i, ";?#", i + |path|);
  }

  lemma SchemeParses(s: string, u: Url)
    requires SchemeOk(u) && Has(s, 0, u.scheme.s + "://")
    ensures SchemeOf(s) == Ok(Scheme(u.scheme, |u.scheme.s|))
  {
    var t := u.scheme.s;
    HasParts(s, 0, t, "://");
    HasSlice(s, 0, t);
    assert s[0] == t[0] && s[|t|] == ':' && s[|t| + 1] == '/';
    assert SkipSpaces(s, 0) == 0;
    assert IndexOf(s, ':', 0) == |t|;
    if |s| >= 5 && s[0..5] == "http:" {
      assert s[0..5][4] == s[4];
      assert |t| == 4;
      assert t == s[0..4] == s[0..5][..4] == "http";
    }
  }

  /** Parsing a printed URL gives the URL back. */
  lemma ParseUndoesPrint(u: Url)
    requires WellFormed(u)
    ensures Parse(Print(u)) == Ok(u)
  {
    hide SchemeOf, AuthorityOf, TailOf, UserText, HostText, TailText, SchemeOk, UserOk, HostOk, TailOk;
    SchemeIsThere(u);
    var s, t := Print(u), u.scheme.s;
    var auth := "://" + (UserText(u) + (HostText(u) + "/"));
    assert s == t + auth + TailText(u);
    assert s == t + "://" + (UserText(u) + (HostText(u) + ("/" + TailText(u))));
    assert Has(s, 0, s);
    HasParts(s, 0, t + "://", UserText(u) + (HostText(u) + ("/" + TailText(u))));
    HasParts(s, 0, t + auth, TailText(u));
    HasParts(s, 0, t, auth);
    SchemeParses(s, u);
    AuthorityParses(s, |t|, u);
    TailParses(s, |t| + |auth|, u);
  }

  lemma SchemeIsThere(u: Url)
    requires SchemeOk(u)
    ensures u.scheme.Some?
  {
  }
}

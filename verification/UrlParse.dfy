/** Parsing a URL into its components, as a cursor over the text. A read at the end of the
    text yields a character that matches nothing. */
module UrlParse {
  import opened HttpChars

  datatype Opt = None | Some(s: string)

  /** A URL: each component is absent or a text; `portNum` is the number in the port text. */
  datatype Url = Url(scheme: Opt, user: Opt, password: Opt, host: Opt, port: Opt, portNum: nat,
                     path: Opt, params: Opt, query: Opt, fragment: Opt)

  const EMPTY := Url(None, None, None, None, None, 0, None, None, None, None)

  datatype Result<T> = Ok(value: T) | Error

  /** Most setters turn the empty text into an absent component. */
  function NonEmpty(t: string): (o: Opt)
    ensures o.None? <==> t == ""
    ensures o.Some? ==> o.s == t
  {
    if t == "" then None else Some(t)
  }

  // ------------------------------------------------------------------------ scheme

  function Lower(s: string): (t: string) {
    seq(|s|, i requires 0 <= i < |s| => ToLower(s[i]))
  }

  const SCHEMES := ["file", "ftp", "gopher", "http", "https", "mailto", "news", "nntp", "prospero",
                    "telnet", "tunnel", "wais", "pnm", "rtsp", "rtspu", "mms", "mmsu", "mmst"]

  predicate KnownScheme(s: string) {
    Lower(s) in SCHEMES
  }

  function SkipSpaces(s: string, i: nat): (k: nat)
    requires i <= |s|
    ensures i <= k <= |s| && (k < |s| ==> s[k] != ' ') && forall j :: i <= j < k ==> s[j] == ' '
    decreases |s| - i
  {
    if i < |s| && s[i] == ' ' then SkipSpaces(s, i + 1) else i
  }

  datatype Scheme = Scheme(scheme: Opt, next: nat)

  /** `url_parse_scheme`: the scheme, and where the rest starts. */
  function SchemeOf(s: string): (r: Result<Scheme>)
    ensures r.Ok? ==> r.value.next <= |s|
  {
    var i := SkipSpaces(s, 0);
    if i == |s| then Error
    else if |s| - i >= 5 && s[i..i + 5] == "http:" then Ok(Scheme(Some("http"), i + 4))
    else if s[i] == '/' then Ok(Scheme(None, i))
    else
      var c := IndexOf(s, ':', i);
      if c < |s| && (KnownScheme(s[i..c]) || c >= |s| - 1 || s[c + 1] == '/') then Ok(Scheme(NonEmpty(s[i..c]), c))
      else Ok(Scheme(None, i))
  }

  // --------------------------------------------------------------------- authority

  const MAX_COLON := 8

  /** The state of the authority loop: the cursor, the start of the current part, the open
      bracket and the last colon (-1 for none), and what was found. */
  datatype Scan = Fail
    | Scan(cur: nat, base: nat, bracket: int, user: string, passw: string, host: string, nColon: nat, lastColon: int)

  ghost predicate Sane(s: string, st: Scan) {
    st.Scan? ==>
      && st.base <= st.cur <= |s| && -1 <= st.bracket < st.cur && -1 <= st.lastColon < st.cur
      && (st.lastColon >= 0 ==> st.base <= st.lastColon)
      && (st.nColon == 0 ==> st.lastColon == -1)
      && (st.nColon > 0 && st.host == "" ==> st.lastColon >= 0)
      && (st.host != "" ==> st.nColon >= MAX_COLON || Ended(s, st.cur))
  }

  predicate Ended(s: string, cur: nat)
    requires cur <= |s|
  {
    cur == |s| || s[cur] == '/'
  }

  /** One turn of the loop, on a character other than the final slash. */
  function Step(s: string, st: Scan): (st': Scan)
    requires st.Scan? && st.cur < |s| && s[st.cur] != '/' && Sane(s, st)
    ensures Sane(s, st') && (st'.Scan? ==> st'.cur > st.cur)
  {
    var c := s[st.cur];
    var next := st.cur + 1;
    if c == ']' then
      if st.bracket == -1 || st.nColon >= MAX_COLON then Fail
      else
        var host := s[st.bracket..next];
        if Ended(s, next) then st.(cur := next, host := host, lastColon := -1)
        else if s[next] != ':' then Fail
        else st.(cur := next + 1, host := host, nColon := MAX_COLON, lastColon := next)
    else if c == ':' then
      if st.nColon + 1 > MAX_COLON then Fail
      else st.(cur := next, nColon := st.nColon + 1, lastColon := st.cur)
    else if c == '@' then
      if st.user != "" || st.nColon > 1 then Fail
      else if st.nColon == 1 then
        st.(cur := next, base := next, user := s[st.base..st.lastColon], passw := s[st.lastColon + 1..st.cur],
            nColon := 0, lastColon := -1)
      else st.(cur := next, base := next, user := s[st.base..st.cur])
    else if c == '[' then
      if st.bracket != -1 || st.base != st.cur then Fail else st.(cur := next, bracket := st.cur)
    else st.(cur := next)
  }

  function Steps(s: string, st: Scan): (st': Scan)
    requires Sane(s, st)
    ensures Sane(s, st') && (st'.Scan? ==> Ended(s, st'.cur))
    decreases if st.Scan? then |s| - st.cur else -1
  {
    if st.Fail? || Ended(s, st.cur) then st else Steps(s, Step(s, st))
  }

  function FromStart(i: nat): (st: Scan) {
    Scan(i, i, -1, "", "", "", 0, -1)
  }

  /** Where the authority starts, behind ":", ":/" or "://". */
  function SkipLead(s: string, i: nat): (r: Result<nat>)
    requires i <= |s|
    ensures r.Ok? ==> i <= r.value <= |s|
  {
    if |s| - i > 3 && s[i..i + 3] == "://" then Ok(i + 3)
    else if i == |s| || s[i] != ':' then Ok(i)
    else if i + 1 >= |s| then Error
    else if s[i + 1] != '/' then Ok(i + 1)
    else if i + 2 >= |s| then Error
    else if s[i + 2] != '/' then Ok(i + 2)
    else Error
  }

  function PortValue(t: string): (n: nat) {
    PortFrom(t, 0, 0)
  }

  /** The decimal value of the leading digits, in sixteen bits. */
  function PortFrom(t: string, i: nat, n: nat): (m: nat)
    requires i <= |t|
    decreases |t| - i
  {
    if i == |t| || !IsDigit(t[i]) then n
    else PortFrom(t, i + 1, (n * 10 + (t[i] as int - '0' as int)) % 0x1_0000)
  }

  datatype Authority = Authority(user: Opt, password: Opt, host: Opt, port: Opt, portNum: nat, next: nat)

  /** Picking up the pieces after the loop. */
  function Finish(s: string, st: Scan): (r: Result<Authority>)
    requires st.Scan? && Sane(s, st)
    ensures r.Ok? ==> r.value.next <= |s|
  {
    var whole := st.host == "" && st.nColon != 1 && st.nColon != MAX_COLON;
    var host := if st.host != "" then st.host else if whole then s[st.base..st.cur] else s[st.base..st.lastColon];
    var colon := if whole then -1 else st.lastColon;
    var next := if st.cur < |s| && s[st.cur] == '/' then st.cur + 1 else st.cur;
    var user := NonEmpty(st.user);
    var password := if user.None? then None else NonEmpty(st.passw);
    if colon < 0 then Ok(Authority(user, password, NonEmpty(host), None, 0, next))
    else
      var port := s[colon + 1..st.cur];
      if port == "" then Error else Ok(Authority(user, password, NonEmpty(host), Some(port), PortValue(port), next))
  }

  /** `url_parse_internet`. */
  function AuthorityOf(s: string, i: nat): (r: Result<Authority>)
    requires i <= |s|
    ensures r.Ok? ==> r.value.next <= |s|
  {
    var lead := SkipLead(s, i);
    if lead.Error? then Error
    else
      var st := Steps(s, FromStart(lead.value));
      if st.Fail? then Error else Finish(s, st)
  }

  // -------------------------------------------------------------- path and the rest

  /** The first position from `i` on that holds one of `cs`, or |s|. */
  function First(s: string, i: nat, cs: string): (k: nat)
    requires i <= |s|
    ensures i <= k <= |s| && (forall j :: i <= j < k ==> s[j] !in cs) && (k < |s| ==> s[k] in cs)
    decreases |s| - i
  {
    if i == |s| || s[i] in cs then i else First(s, i + 1, cs)
  }

  datatype Tail = Tail(path: Opt, params: Opt, query: Opt, fragment: Opt)

  /** The components of `url_parse_http` behind the authority. */
  function TailOf(s: string, i: nat): (t: Tail)
    requires i <= |s|
  {
    var p := First(s, i, ";?#");
    var m := if p < |s| && s[p] == ';' then First(s, p + 1, "?#") else p;
    var q := if m < |s| && s[m] == '?' then First(s, m + 1, "#") else m;
    Tail(NonEmpty(s[i..p]),
         if p < |s| && s[p] == ';' then Some(s[p + 1..m]) else None,
         if m < |s| && s[m] == '?' then Some(s[m + 1..q]) else None,
         if q < |s| && s[q] == '#' then Some(s[q + 1..]) else None)
  }

  /** `url_parse` on a cleared URL. */
  function Parse(s: string): (r: Result<Url>) {
    var sc := SchemeOf(s);
    if sc.Error? then Error
    else
      var a := AuthorityOf(s, sc.value.next);
      if a.Error? then Error
      else
        var t := TailOf(s, a.value.next);
        Ok(Url(sc.value.scheme, a.value.user, a.value.password, a.value.host, a.value.port, a.value.portNum,
               t.path, t.params, t.query, t.fragment))
  }

  // ----------------------------------------------------------------------- methods

  /** `url_parse_scheme`. */
  method ParseScheme(s: string) returns (r: Result<Scheme>)
    ensures r == SchemeOf(s)
  {
    var cur := 0;
    while cur < |s| && s[cur] == ' '
      invariant 0 <= cur <= |s| && SkipSpaces(s, cur) == SkipSpaces(s, 0)
    {
      cur := cur + 1;
    }
    if cur == |s| {
      return Error;
    }
    if |s| - cur >= 5 && s[cur..cur + 5] == "http:" {
      return Ok(Scheme(Some("http"), cur + 4));
    }
    r := Ok(Scheme(None, cur));
    if s[cur] != '/' {
      var c := cur;
      while c < |s| && s[c] != ':'
        invariant cur <= c <= |s| && IndexOf(s, ':', c) == IndexOf(s, ':', cur)
      {
        c := c + 1;
      }
      if c < |s| && (KnownScheme(s[cur..c]) || c >= |s| - 1 || s[c + 1] == '/') {
        r := Ok(Scheme(NonEmpty(s[cur..c]), c));
      }
    }
  }

  /** `url_port_set` from text: the number it stores. */
  method PortNumber(t: string) returns (n: nat)
    ensures n == PortValue(t) && n < 0x1_0000
  {
    n := 0;
    var i := 0;
    while i < |t| && IsDigit(t[i])
      invariant 0 <= i <= |t| && n < 0x1_0000 && PortFrom(t, i, n) == PortFrom(t, 0, 0)
    {
      n := (n * 10 + (t[i] as int - '0' as int)) % 0x1_0000;
      i := i + 1;
    }
  }

  // The loop of `url_parse_internet` over its local variables.
  method ScanAuthority(s: string, i: nat) returns (ok: bool, st: Scan)
    requires i <= |s|
    ensures ok <==> Steps(s, FromStart(i)).Scan?
    ensures ok ==> st == Steps(s, FromStart(i))
  {
    hide Steps;
    var cur: nat, base: nat, bracket: int, user, passw, host, nColon: nat, lastColon: int := i, i, -1, "", "", "", 0, -1;
    st := FromStart(i);
    while cur < |s| && s[cur] != '/'
      invariant cur <= |s|
      invariant Sane(s, Scan(cur, base, bracket, user, passw, host, nColon, lastColon))
      invariant Steps(s, Scan(cur, base, bracket, user, passw, host, nColon, lastColon)) == Steps(s, FromStart(i))
      decreases |s| - cur
    {
      ghost var now := Scan(cur, base, bracket, user, passw, host, nColon, lastColon);
      OneStep(s, now);
      var c := s[cur];
      if c == ']' {
        if bracket == -1 || nColon >= MAX_COLON {
          return false, st;
        }
        cur := cur + 1;
        host := s[bracket..cur];
        if cur == |s| || s[cur] == '/' {
          lastColon := -1;
        } else if s[cur] != ':' {
          return false, st;
        } else {
          nColon := MAX_COLON;
          lastColon := cur;
          cur := cur + 1;
        }
      } else if c == ':' {
        nColon := nColon + 1;
        if nColon > MAX_COLON {
          return false, st;
        }
        lastColon := cur;
        cur := cur + 1;
      } else if c == '@' {
        if user != "" || nColon > 1 {
          return false, st;
        }
        if nColon > 0 {
          user := s[base..lastColon];
          passw := s[lastColon + 1..cur];
          nColon, lastColon := 0, -1;
        } else {
          user := s[base..cur];
        }
        cur := cur + 1;
        base := cur;
      } else if c == '[' {
        if bracket != -1 || base != cur {
          return false, st;
        }
        bracket := cur;
        cur := cur + 1;
      } else {
        cur := cur + 1;
      }
    }
    st := Scan(cur, base, bracket, user, passw, host, nColon, lastColon);
    AtEnd(s, st);
    ok := true;
  }

  lemma OneStep(s: string, st: Scan)
    requires st.Scan? && Sane(s, st) && !Ended(s, st.cur)
    ensures Steps(s, st) == Steps(s, Step(s, st)) && (Step(s, st).Fail? ==> Steps(s, st).Fail?)
  {
  }

  lemma AtEnd(s: string, st: Scan)
    requires st.Scan? && Sane(s, st) && Ended(s, st.cur)
    ensures Steps(s, st) == st
  {
  }

  // The scanning loops of `url_parse_http`.
  method Until(s: string, i: nat, cs: string) returns (cur: nat)
    requires i <= |s|
    ensures cur == First(s, i, cs)
  {
    cur := i;
    while cur < |s| && s[cur] !in cs
      invariant i <= cur <= |s| && First(s, cur, cs) == First(s, i, cs)
    {
      cur := cur + 1;
    }
  }

  /** `url_parse_http`: the labels of the source become one step for each component. */
  method ParseTail(s: string, i: nat) returns (t: Tail)
    requires i <= |s|
    ensures t == TailOf(s, i)
  {
    hide First;
    t := Tail(None, None, None, None);
    if i == |s| {
      return;
    }
    var cur := Until(s, i, ";?#");
    t := t.(path := NonEmpty(s[i..cur]));
    if cur < |s| && s[cur] == ';' {
      var start := cur + 1;
      cur := Until(s, start, "?#");
      t := t.(params := Some(s[start..cur]));
    }
    if cur < |s| && s[cur] == '?' {
      var start := cur + 1;
      cur := Until(s, start, "#");
      t := t.(query := Some(s[start..cur]));
    }
    if cur < |s| && s[cur] == '#' {
      t := t.(fragment := Some(s[cur + 1..]));
    }
  }

  // The end of `url_parse_internet`.
  method PickUp(s: string, st: Scan) returns (r: Result<Authority>)
    requires st.Scan? && Sane(s, st)
    ensures r == Finish(s, st)
  {
    hide PortValue;
    var user, password := NonEmpty(st.user), None;
    if user.Some? {
      password := NonEmpty(st.passw);
    }
    var host, colon := st.host, st.lastColon;
    if host == "" {
      if st.nColon == 1 || st.nColon == MAX_COLON {
        host := s[st.base..colon];
      } else {
        host, colon := s[st.base..st.cur], -1;
      }
    }
    var next := st.cur;
    if next < |s| && s[next] == '/' {
      next := next + 1;
    }
    if colon < 0 {
      return Ok(Authority(user, password, NonEmpty(host), None, 0, next));
    }
    var port := s[colon + 1..st.cur];
    if port == "" {
      return Error;
    }
    var n := PortNumber(port);
    r := Ok(Authority(user, password, NonEmpty(host), Some(port), n, next));
  }

  /** `url_parse`. */
  method ParseUrl(s: string) returns (r: Result<Url>)
    ensures r == Parse(s)
  {
    hide SchemeOf, TailOf, Steps, SkipLead, Finish, Sane;
    var sc := ParseScheme(s);
    if sc.Error? {
      return Error;
    }
    var lead := SkipLead(s, sc.value.next);
    if lead.Error? {
      return Error;
    }
    var ok, st := ScanAuthority(s, lead.value);
    if !ok {
      return Error;
    }
    var a := PickUp(s, st);
    if a.Error? {
      return Error;
    }
    var t := ParseTail(s, a.value.next);
    var v := a.value;
    r := Ok(Url(sc.value.scheme, v.user, v.password, v.host, v.port, v.portNum, t.path, t.params, t.query, t.fragment));
  }
}

module UrlDigestStream {
  // The two ways a URL's digest stream is produced, over the real buffer: the general one,
  // component by component with flushes, and the fast one for plain HTTP URLs. The digest
  // itself is a fold over the bytes handed to it, in order.

  import opened HttpChars
  import opened UrlParse
  import opened UrlDigest

  datatype Part = Part(text: string, lower: bool)

  function TextOf(o: Opt): (t: string) {
    if o.None? then "" else o.s
  }

  /** The components in stream order; scheme and host are folded to lower case. */
  function Parts(u: Url): (ps: seq<Part>) {
    [Part(TextOf(u.scheme), true), Part("://", false), Part(TextOf(u.user), false), Part(":", false),
     Part(TextOf(u.password), false), Part("@", false), Part(TextOf(u.host), true), Part("/", false),
     Part(TextOf(u.path), false), Part(";", false), Part(TextOf(u.params), false), Part("?", false),
     Part(TextOf(u.query), false)]
  }

  function IsHttps(u: Url): (b: bool) {
    u.scheme.Some? && Lower(u.scheme.s) == "https"
  }

  /** The port that counts, as two bytes, low byte first. */
  function PortBytes(u: Url): (t: string)
    ensures |t| == 2
  {
    var n := if u.portNum % 0x1_0000 != 0 then u.portNum % 0x1_0000 else if IsHttps(u) then 443 else 80;
    [(n % 256) as char, (n / 256) as char]
  }

  /** The stream the parts stand for, however the buffer was filled. */
  function Canonical(ps: seq<Part>): (t: string) {
    if |ps| == 0 then ""
    else Canonical(ps[..|ps| - 1]) + Run(ps[|ps| - 1].text, Pos(0, 0), ps[|ps| - 1].lower)
  }

  /** No part that is copied ahead of the machine holds a broken escape. */
  ghost predicate AllWhole(ps: seq<Part>) {
    forall i :: 0 <= i < |ps| && !ps[i].lower ==> !Broken(ps[i].text, Pos(0, 0))
  }

  lemma CanonicalStep(ps: seq<Part>, i: nat)
    requires i < |ps|
    ensures Canonical(ps[..i + 1]) == Canonical(ps[..i]) + Run(ps[i].text, Pos(0, 0), ps[i].lower)
  {
    assert ps[..i + 1][..i] == ps[..i];
  }

  /** The stream of any URL, component by component. */
  lemma CanonicalIs(u: Url)
    ensures Canonical(Parts(u)) ==
      Meaning(TextOf(u.scheme), 0, true) + "://" + Meaning(TextOf(u.user), 0, false) + ":"
      + Meaning(TextOf(u.password), 0, false) + "@" + Meaning(TextOf(u.host), 0, true) + "/"
      + Meaning(TextOf(u.path), 0, false) + ";" + Meaning(TextOf(u.params), 0, false) + "?"
      + Meaning(TextOf(u.query), 0, false)
  {
    hide Canonical, Run, Meaning;
    var ps := Parts(u);
    CanonicalFirst(ps);
    forall i | 0 <= i < 13
      ensures Canonical(ps[..i + 1]) == Canonical(ps[..i]) + Meaning(ps[i].text, 0, ps[i].lower)
    {
      CanonicalStep(ps, i);
      RunIsMeaning(ps[i].text, 0, ps[i].lower);
    }
    MarksMeanThemselves();
    CanonicalFront(ps);
    assert ps[..13] == ps;
  }

  lemma CanonicalFirst(ps: seq<Part>)
    ensures Canonical(ps[..0]) == ""
  {
  }

  // The first half of the sum.
  lemma CanonicalFront(ps: seq<Part>)
    requires |ps| == 13 && Canonical(ps[..0]) == ""
    requires forall i :: 0 <= i < 13 ==> Canonical(ps[..i + 1]) == Canonical(ps[..i]) + Meaning(ps[i].text, 0, ps[i].lower)
    ensures Canonical(ps[..6]) ==
      Meaning(ps[0].text, 0, ps[0].lower) + Meaning(ps[1].text, 0, ps[1].lower) + Meaning(ps[2].text, 0, ps[2].lower)
      + Meaning(ps[3].text, 0, ps[3].lower) + Meaning(ps[4].text, 0, ps[4].lower) + Meaning(ps[5].text, 0, ps[5].lower)
    ensures Canonical(ps[..13]) == Canonical(ps[..6])
      + Meaning(ps[6].text, 0, ps[6].lower) + Meaning(ps[7].text, 0, ps[7].lower) + Meaning(ps[8].text, 0, ps[8].lower)
      + Meaning(ps[9].text, 0, ps[9].lower) + Meaning(ps[10].text, 0, ps[10].lower) + Meaning(ps[11].text, 0, ps[11].lower)
      + Meaning(ps[12].text, 0, ps[12].lower)
  {
    hide Canonical, Meaning;
    assert Canonical(ps[..0 + 1]) == Meaning(ps[0].text, 0, ps[0].lower);
    assert Canonical(ps[..1 + 1]) == Canonical(ps[..1]) + Meaning(ps[1].text, 0, ps[1].lower);
    assert Canonical(ps[..2 + 1]) == Canonical(ps[..2]) + Meaning(ps[2].text, 0, ps[2].lower);
    assert Canonical(ps[..3 + 1]) == Canonical(ps[..3]) + Meaning(ps[3].text, 0, ps[3].lower);
    assert Canonical(ps[..4 + 1]) == Canonical(ps[..4]) + Meaning(ps[4].text, 0, ps[4].lower);
    assert Canonical(ps[..5 + 1]) == Canonical(ps[..5]) + Meaning(ps[5].text, 0, ps[5].lower);
    assert Canonical(ps[..6 + 1]) == Canonical(ps[..6]) + Meaning(ps[6].text, 0, ps[6].lower);
    assert Canonical(ps[..7 + 1]) == Canonical(ps[..7]) + Meaning(ps[7].text, 0, ps[7].lower);
    assert Canonical(ps[..8 + 1]) == Canonical(ps[..8]) + Meaning(ps[8].text, 0, ps[8].lower);
    assert Canonical(ps[..9 + 1]) == Canonical(ps[..9]) + Meaning(ps[9].text, 0, ps[9].lower);
    assert Canonical(ps[..10 + 1]) == Canonical(ps[..10]) + Meaning(ps[10].text, 0, ps[10].lower);
    assert Canonical(ps[..11 + 1]) == Canonical(ps[..11]) + Meaning(ps[11].text, 0, ps[11].lower);
    assert Canonical(ps[..12 + 1]) == Canonical(ps[..12]) + Meaning(ps[12].text, 0, ps[12].lower);
  }

  lemma MarksMeanThemselves()
    ensures Meaning("://", 0, false) == "://" && Meaning(":", 0, false) == ":" && Meaning("@", 0, false) == "@"
    ensures Meaning("/", 0, false) == "/" && Meaning(";", 0, false) == ";" && Meaning("?", 0, false) == "?"
  {
    assert Meaning("://", 2, false) == "/" && Meaning("://", 1, false) == "//";
  }

  /** The two port bytes determine the port; a missing port is 443 for HTTPS and else 80. */
  lemma PortBytesAre(u: Url)
    ensures var b, n := PortBytes(u), u.portNum % 0x1_0000;
      b[0] as int + 256 * b[1] as int ==
        if n != 0 then n else if u.scheme.Some? && Lower(u.scheme.s) == "https" then 443 else 80
  {
    hide Lower;
  }

  // ------------------------------------------------------------------- the fast path

  predicate NoPercent(t: string) {
    forall i :: 0 <= i < |t| ==> t[i] != '%'
  }

  /** The guard of the fast path. */
  predicate FastGuard(u: Url) {
    && !IsHttps(u)
    && |TextOf(u.user)| + |TextOf(u.password)| + |TextOf(u.params)| + |TextOf(u.query)| == 0
    && 3 + 1 + 1 + 1 + 1 + 1 + 2 + |TextOf(u.scheme)| + |TextOf(u.host)| + |TextOf(u.path)| < BUFSIZE
    && NoPercent(TextOf(u.host)) && NoPercent(TextOf(u.path))
  }

  function FastText(u: Url): (t: string) {
    Lower(TextOf(u.scheme)) + "://" + ":" + "@" + Lower(TextOf(u.host)) + "/" + TextOf(u.path) + ";" + "?"
  }

  lemma PlainRun(s: string, lower: bool)
    requires NoPercent(s)
    ensures Run(s, Pos(0, 0), lower) == (if lower then Lower(s) else s) && !Broken(s, Pos(0, 0))
  {
    NoEscapes(s, 0);
    ValidIsDecoded(s, 0, lower);
    assert s[0..] == s && Lower(s)[0..] == Lower(s);
  }

  // The canonical stream of parts that hold no '%'.
  function Joined(ps: seq<Part>): (t: string) {
    if |ps| == 0 then "" else
      Joined(ps[..|ps| - 1]) + (if ps[|ps| - 1].lower then Lower(ps[|ps| - 1].text) else ps[|ps| - 1].text)
  }

  lemma {:induction false} PlainCanonical(ps: seq<Part>)
    requires forall i :: 0 <= i < |ps| ==> NoPercent(ps[i].text)
    ensures Canonical(ps) == Joined(ps)
  {
    if |ps| > 0 {
      PlainCanonical(ps[..|ps| - 1]);
      PlainRun(ps[|ps| - 1].text, ps[|ps| - 1].lower);
    }
  }

  lemma JoinedStep(ps: seq<Part>, q: Part, t: string)
    requires Joined(ps) == t
    ensures Joined(ps + [q]) == t + (if q.lower then Lower(q.text) else q.text)
  {
    assert (ps + [q])[..|ps|] == ps;
  }

  /** Under its guard the fast path feeds the very stream of the general one, provided the
      scheme holds no '%'. */
  lemma FastIsGeneral(u: Url)
    requires FastGuard(u) && NoPercent(TextOf(u.scheme))
    ensures FastText(u) == Canonical(Parts(u))
  {
    var ps := Parts(u);
    PlainCanonical(ps);
    hide Joined, Canonical, Lower, IsHttps, NoPercent;
    var sch, host := Lower(TextOf(u.scheme)), Lower(TextOf(u.host));
    var a := [ps[0], ps[1], ps[2], ps[3], ps[4], ps[5]];
    assert Joined(a) == sch + "://" + ":" + "@" by { FastFront(u, a); }
    var b := a + [ps[6]] + [ps[7]] + [ps[8]];
    JoinedStep(a, ps[6], sch + "://" + ":" + "@");
    JoinedStep(a + [ps[6]], ps[7], sch + "://" + ":" + "@" + host);
    JoinedStep(a + [ps[6]] + [ps[7]], ps[8], sch + "://" + ":" + "@" + host + "/");
    FastBack(b, ps[9], ps[10], ps[11], ps[12], sch + "://" + ":" + "@" + host + "/" + TextOf(u.path));
    assert ps == b + [ps[9], ps[10], ps[11], ps[12]];
  }

  lemma FastFront(u: Url, a: seq<Part>)
    requires FastGuard(u) && a == Parts(u)[..6]
    ensures Joined(a) == Lower(TextOf(u.scheme)) + "://" + ":" + "@"
  {
    hide Joined, Lower, IsHttps;
    var sch, ps := Lower(TextOf(u.scheme)), Parts(u);
    EmptyJoined();
    JoinedStep([], ps[0], "");
    assert "" + sch == sch;
    JoinedStep([] + [ps[0]], ps[1], sch);
    JoinedStep([] + [ps[0]] + [ps[1]], ps[2], sch + "://");
    JoinedStep([] + [ps[0]] + [ps[1]] + [ps[2]], ps[3], sch + "://" + "");
    JoinedStep([] + [ps[0]] + [ps[1]] + [ps[2]] + [ps[3]], ps[4], sch + "://" + "" + ":");
    JoinedStep([] + [ps[0]] + [ps[1]] + [ps[2]] + [ps[3]] + [ps[4]], ps[5], sch + "://" + "" + ":" + "");
    assert a == [] + [ps[0]] + [ps[1]] + [ps[2]] + [ps[3]] + [ps[4]] + [ps[5]];
  }

  lemma EmptyJoined()
    ensures Joined([]) == ""
  {
  }

  lemma FastBack(b: seq<Part>, p: Part, q: Part, r: Part, s: Part, t: string)
    requires Joined(b) == t && p == Part(";", false) && q == Part("", false) && r == Part("?", false) && s == Part("", false)
    ensures Joined(b + [p, q, r, s]) == t + ";" + "?"
  {
    hide Joined;
    JoinedStep(b, p, t);
    JoinedStep(b + [p], q, t + ";");
    JoinedStep(b + [p] + [q], r, t + ";" + "");
    JoinedStep(b + [p] + [q] + [r], s, t + ";" + "" + "?");
    assert b + [p, q, r, s] == b + [p] + [q] + [r] + [s];
  }

  // ------------------------------------------------------------------------ digester

  class Digester {
    const buf: array<char>
    var p: nat
    var fed: string

    ghost predicate Valid()
      reads this
    {
      buf.Length == BUFSIZE && p < BUFSIZE
    }

    /** All bytes so far: handed to the digest, or waiting in the buffer. */
    ghost function Stream(): (t: string)
      reads this, buf
      requires Valid()
    {
      fed + buf[..p]
    }

    constructor ()
      ensures Valid() && fresh(buf) && Stream() == "" && fed == "" && p == 0
    {
      buf := new char[BUFSIZE](_ => ' ');
      p, fed := 0, "";
    }

    // *buf++ = c
    method Put(c: char)
      requires p < buf.Length
      modifies this`p, buf
      ensures p == old(p) + 1 && buf[..p] == old(buf[..p]) + [c]
    {
      buf[p] := c;
      p := p + 1;
    }

    method PutAll(t: string)
      requires p + |t| <= buf.Length
      modifies this`p, buf
      ensures p == old(p) + |t| && buf[..p] == old(buf[..p]) + t
    {
      forall j | 0 <= j < |t| {
        buf[p + j] := t[j];
      }
      p := p + |t|;
    }

    method PutTwo(a: string, b: string)
      requires p + |a| + |b| <= buf.Length
      modifies this`p, buf
      ensures p == old(p) + |a| + |b| && buf[..p] == old(buf[..p]) + a + b
    {
      PutAll(a);
      PutAll(b);
    }

    /** The loop of `unescape_str` and of `unescape_str_tolower`. */
    method UnescapeLoop(s: string, p0: Pos, lower: bool) returns (q: Pos)
      requires PosOk(s, p0) && p <= buf.Length
      modifies this`p, buf
      ensures p <= buf.Length
      ensures var t := Loop(s, p0, buf.Length - old(p), lower); q == t.p && buf[..p] == old(buf[..p]) + t.out
    {
      hide Loop, Next;
      q := p0;
      ghost var out := "";
      while q.i < |s| && p != buf.Length
        invariant PosOk(s, q) && p <= buf.Length && buf[..p] == old(buf[..p]) + out
        invariant var t, r := Loop(s, p0, buf.Length - old(p), lower), Loop(s, q, buf.Length - p, lower);
          t.p == r.p && t.out == out + r.out
        decreases Left(s, q)
      {
        LoopOnce(s, q, buf.Length - p, lower);
        var n := Next(s, q, lower);
        ghost var r := Loop(s, n.p, buf.Length - p - |n.out|, lower);
        Assoc(out, n.out, r.out);
        Assoc(old(buf[..p]), out, n.out);
        if |n.out| > 0 {
          assert [n.out[0]] == n.out;
          Put(n.out[0]);
        }
        out := out + n.out;
        q := n.p;
      }
      LoopDone(s, q, buf.Length - p, lower);
    }

    /** One call of `unescape_str` or `unescape_str_tolower`. */
    method Unescape(s: string, p0: Pos, lower: bool) returns (q: Pos)
      requires PosOk(s, p0) && (p0.st == 0 || p0.st == 3) && p0.i < |s| && p < buf.Length
      modifies this`p, buf
      ensures p <= buf.Length
      ensures var t := Call(s, p0, buf.Length - old(p), lower); q == t.p && buf[..p] == old(buf[..p]) + t.out
    {
      hide Loop, Next, Left, IndexOf;
      if lower {
        q := UnescapeLoop(s, p0, true);
      } else {
        var min := Least(|s| - p0.i, buf.Length - p);
        var k := IndexOf(s, '%', p0.i) - p0.i;
        if k >= min {
          PutAll(s[p0.i..p0.i + min]);
          q := Pos(p0.i + min, p0.st);
        } else {
          ghost var b := buf[..p];
          PutAll(s[p0.i..p0.i + k]);
          ghost var r := Loop(s, Pos(p0.i + k, p0.st), buf.Length - p, false);
          Assoc(b, s[p0.i..p0.i + k], r.out);
          q := UnescapeLoop(s, Pos(p0.i + k, p0.st), false);
        }
      }
    }

    // One call, and the flush if the buffer is full.
    method Pump(s: string, q: Pos, lower: bool) returns (q': Pos)
      requires Valid() && PosOk(s, q) && (q.st == 0 || q.st == 3) && q.i < |s|
      modifies this`p, this`fed, buf
      ensures Valid()
      ensures var c := Call(s, q, BUFSIZE - old(p), lower);
        && q' == c.p && Stream() == old(Stream()) + c.out
        && p == if |c.out| == BUFSIZE - old(p) then 0 else old(p) + |c.out|
    {
      hide Call, Loop, Next;
      ghost var c := Call(s, q, BUFSIZE - p, lower);
      Assoc(fed, buf[..p], c.out);
      q' := Unescape(s, q, lower);
      assert |buf[..p]| == p;
      if p == BUFSIZE {
        assert buf[..] == buf[..BUFSIZE] && buf[..0] == [];
        fed := fed + buf[..];
        p := 0;
      }
    }

    /** One component of the general path, flushing whenever the buffer is full. */
    method AddComponent(s: string, lower: bool)
      requires Valid()
      modifies this`p, this`fed, buf
      ensures Valid() && Stream() == old(Stream()) + Component(s, Pos(0, 0), BUFSIZE - old(p), lower)
    {
      hide Call, Component, Loop, Next;
      var q := Pos(0, 0);
      ghost var out, all, start := "", Component(s, Pos(0, 0), BUFSIZE - p, lower), Stream();
      while q.i < |s|
        invariant Valid() && PosOk(s, q) && (q.i < |s| ==> q.st == 0 || q.st == 3)
        invariant Stream() == start + out && all == out + Component(s, q, BUFSIZE - p, lower)
        decreases Left(s, q)
      {
        ComponentOnce(s, q, BUFSIZE - p, lower);
        ghost var c := Call(s, q, BUFSIZE - p, lower);
        Assoc(start, out, c.out);
        q := Pump(s, q, lower);
        Assoc(out, c.out, Component(s, q, BUFSIZE - p, lower));
        out := out + c.out;
      }
      ComponentDone(s, q, BUFSIZE - p, lower);
    }

    /** `url_MD5_get_general`. */
    method General(u: Url)
      requires Valid() && p == 0 && fed == ""
      modifies this`p, this`fed, buf
      ensures AllWhole(Parts(u)) ==> fed == Canonical(Parts(u)) + PortBytes(u)
    {
      hide Canonical, Component, Run, Broken;
      var ps := Parts(u);
      var i := 0;
      assert buf[..0] == [];
      CanonicalNone(ps);
      while i < |ps|
        invariant 0 <= i <= |ps| && Valid() && (AllWhole(ps) ==> Stream() == Canonical(ps[..i]))
      {
        CanonicalStep(ps, i);
        if ps[i].lower || !Broken(ps[i].text, Pos(0, 0)) {
          FlushesDoNotMatter(ps[i].text, Pos(0, 0), BUFSIZE - p, ps[i].lower);
        }
        AddComponent(ps[i].text, ps[i].lower);
        i := i + 1;
      }
      assert ps[..i] == ps;
      if p != 0 {
        fed := fed + buf[..p];
      }
      fed := fed + PortBytes(u);
    }

    /** `url_MD5_get_fast`: everything fits the buffer, one update. */
    method Fast(u: Url)
      requires Valid() && p == 0 && fed == "" && FastGuard(u)
      modifies this`p, this`fed, buf
      ensures fed == FastText(u) + PortBytes(u)
    {
      hide FastGuard, Lower, PortBytes;
      FastLength(u);
      assert buf[..0] == [];
      var front := Lower(TextOf(u.scheme)) + "://" + ":" + "@";
      PutAll(front);
      PutTwo(Lower(TextOf(u.host)), "/");
      PutTwo(TextOf(u.path), ";");
      PutTwo("?", PortBytes(u));
      fed := buf[..p];
    }

    /** `url_MD5_get`: both paths hand the same bytes to the digest. */
    method UrlDigest(u: Url, fastAllowed: bool)
      requires Valid() && p == 0 && fed == ""
      modifies this`p, this`fed, buf
      ensures AllWhole(Parts(u)) && NoPercent(TextOf(u.scheme)) ==> fed == Canonical(Parts(u)) + PortBytes(u)
    {
      if fastAllowed && FastGuard(u) {
        Fast(u);
        if NoPercent(TextOf(u.scheme)) {
          FastIsGeneral(u);
        }
      } else {
        General(u);
      }
    }
  }

  // -------------------------------------------------------------------- proof steps

  lemma LoopOnce(s: string, q: Pos, room: nat, lower: bool)
    requires PosOk(s, q) && q.i < |s| && room > 0
    ensures var n := Next(s, q, lower); var r := Loop(s, n.p, room - |n.out|, lower);
      Loop(s, q, room, lower) == Turn(n.out + r.out, r.p)
  {
  }

  lemma LoopDone(s: string, q: Pos, room: nat, lower: bool)
    requires PosOk(s, q) && (q.i == |s| || room == 0)
    ensures Loop(s, q, room, lower) == Turn("", q)
  {
  }

  lemma ComponentOnce(s: string, q: Pos, room: nat, lower: bool)
    requires PosOk(s, q) && q.i < |s| && (q.st == 0 || q.st == 3) && 0 < room <= BUFSIZE
    ensures var c := Call(s, q, room, lower);
      Component(s, q, room, lower) == c.out + Component(s, c.p, if |c.out| == room then BUFSIZE else room - |c.out|, lower)
  {
    hide Call;
  }

  lemma ComponentDone(s: string, q: Pos, room: nat, lower: bool)
    requires PosOk(s, q) && q.i == |s| && 0 < room <= BUFSIZE
    ensures Component(s, q, room, lower) == ""
  {
  }

  lemma CanonicalNone(ps: seq<Part>)
    ensures Canonical(ps[..0]) == ""
  {
  }

  lemma FastLength(u: Url)
    requires FastGuard(u)
    ensures |Lower(TextOf(u.scheme))| + |Lower(TextOf(u.host))| + |TextOf(u.path)| + 10 < BUFSIZE
  {
  }
}

/** Base64 (section 4 of RFC 4648) on bytes as bit vectors. */
module Base64 {

  const PAD: bv8 := 61
  const INVALID: bv8 := 77

  /** The alphabet of the encoder: A-Z, a-z, 0-9, '+', '/'. */
  function Letter(v: bv8): (c: bv8)
    requires v < 64
  {
    if v < 26 then 65 + v else if v < 52 then 71 + v else if v < 62 then v - 4 else if v == 62 then 43 else 47
  }

  /** The decoder's tables: the standard one, and the one for URLs with '-' and '_'. */
  function Value(c: bv8, url: bool): (v: bv8)
    ensures v < 64 || v == INVALID
  {
    if 65 <= c <= 90 then c - 65
    else if 97 <= c <= 122 then c - 71
    else if 48 <= c <= 57 then c + 4
    else if c == (if url then 45 else 43) then 62
    else if c == (if url then 95 else 47) then 63
    else INVALID
  }

  lemma LetterHasValue(v: bv8)
    requires v < 64
    ensures Value(Letter(v), false) == v && Letter(v) != PAD
  {
  }

  // ---------------------------------------------------------------------- encoding

  // The four six-bit values of three bytes.
  function Six1(a: bv8): (v: bv8) { (a >> 2) & 0x3f }
  function Six2(a: bv8, b: bv8): (v: bv8) { ((a & 3) << 4) | (b >> 4) }
  function Six3(b: bv8, c: bv8): (v: bv8) { ((b & 0x0f) << 2) | (c >> 6) }
  function Six4(c: bv8): (v: bv8) { c & 0x3f }

  lemma SixBits(a: bv8, b: bv8, c: bv8)
    ensures Six1(a) < 64 && Six2(a, b) < 64 && Six3(b, c) < 64 && Six4(c) < 64
  {
  }

  function Group(a: bv8, b: bv8, c: bv8): (t: seq<bv8>)
    ensures |t| == 4
  {
    SixBits(a, b, c);
    [Letter(Six1(a)), Letter(Six2(a, b)), Letter(Six3(b, c)), Letter(Six4(c))]
  }

  /** The code letters of a byte string, without padding; zero bits fill up the last one. */
  function Letters(s: seq<bv8>): (t: seq<bv8>) {
    if |s| == 0 then []
    else if |s| == 1 then Group(s[0], 0, 0)[..2]
    else if |s| == 2 then Group(s[0], s[1], 0)[..3]
    else Group(s[0], s[1], s[2]) + Letters(s[3..])
  }

  function Padding(s: seq<bv8>): (t: seq<bv8>) {
    if |s| % 3 == 1 then [PAD, PAD] else if |s| % 3 == 2 then [PAD] else []
  }

  function Encode(s: seq<bv8>): (t: seq<bv8>) {
    Letters(s) + Padding(s)
  }

  lemma {:induction false} ThreesAndRest(k: nat, r: nat)
    requires r < 3
    ensures (3 * k + r) % 3 == r
  {
    if k > 0 {
      ThreesAndRest(k - 1, r);
      assert 3 * k + r == 3 * (k - 1) + r + 3;
    }
  }

  // The loop over whole groups.
  method EncodeGroups(src: seq<bv8>) returns (dst: seq<bv8>, i: nat)
    ensures i <= |src| && |src| - i == |src| % 3 && Letters(src) == dst + Letters(src[i..])
  {
    hide Group;
    dst, i := [], 0;
    ghost var k := 0;
    assert src[0..] == src;
    while |src| - i > 2
      invariant 0 <= i <= |src| && i == 3 * k && Letters(src) == dst + Letters(src[i..])
      decreases |src| - i
    {
      var g := Group(src[i], src[i + 1], src[i + 2]);
      assert src[i..][3..] == src[i + 3..];
      assert dst + (g + Letters(src[i + 3..])) == (dst + g) + Letters(src[i + 3..]);
      dst := dst + g;
      i, k := i + 3, k + 1;
    }
    ThreesAndRest(k, |src| - i);
  }

  /** `oc_encode_base64`. */
  method EncodeBase64(src: seq<bv8>) returns (dst: seq<bv8>)
    ensures dst == Encode(src)
  {
    hide Letters;
    var i;
    dst, i := EncodeGroups(src);
    var left := |src| - i;
    LastLetters(src[i..]);
    if left > 0 {
      var a, b := src[i], if left == 1 then 0 else src[i + 1];
      SixBits(a, b, 0);
      ghost var done, g := dst, Group(a, b, 0);
      hide Letter, Six1, Six2, Six3;
      dst := dst + [Letter(Six1(a))];
      if left == 1 {
        dst := dst + [Letter(Six2(a, 0))] + [PAD];
        assert dst == done + g[..2] + [PAD];
      } else {
        dst := dst + [Letter(Six2(a, b))] + [Letter(Six3(b, 0))];
        assert dst == done + g[..3];
      }
      dst := dst + [PAD];
    }
  }

  lemma LastLetters(s: seq<bv8>)
    ensures |s| == 0 ==> Letters(s) == []
    ensures 0 < |s| < 3 ==> Letters(s) == Group(s[0], if |s| == 1 then 0 else s[1], 0)[..|s| + 1]
  {
    hide Group;
  }

  // ---------------------------------------------------------------------- decoding

  datatype Result = Ok(bytes: seq<bv8>) | Error

  /** The first padding sign, or the end. */
  function DataLen(t: seq<bv8>, i: nat): (n: nat)
    requires i <= |t|
    ensures i <= n <= |t| && (n < |t| ==> t[n] == PAD) && forall j :: i <= j < n ==> t[j] != PAD
    decreases |t| - i
  {
    if i == |t| || t[i] == PAD then i else DataLen(t, i + 1)
  }

  function Byte1(a: bv8, b: bv8): (x: bv8) { (a << 2) | (b >> 4) }
  function Byte2(b: bv8, c: bv8): (x: bv8) { (b << 4) | (c >> 2) }
  function Byte3(c: bv8, d: bv8): (x: bv8) { (c << 6) | d }

  function ThreeBytes(a: bv8, b: bv8, c: bv8, d: bv8, url: bool): (s: seq<bv8>) {
    [Byte1(Value(a, url), Value(b, url)), Byte2(Value(b, url), Value(c, url)), Byte3(Value(c, url), Value(d, url))]
  }

  function Bytes(t: seq<bv8>, url: bool): (s: seq<bv8>) {
    if |t| <= 1 then []
    else if |t| == 2 then [Byte1(Value(t[0], url), Value(t[1], url))]
    else if |t| == 3 then [Byte1(Value(t[0], url), Value(t[1], url)), Byte2(Value(t[1], url), Value(t[2], url))]
    else ThreeBytes(t[0], t[1], t[2], t[3], url) + Bytes(t[4..], url)
  }

  predicate AllValid(t: seq<bv8>, url: bool) {
    forall i :: 0 <= i < |t| ==> Value(t[i], url) != INVALID
  }

  function Decode(t: seq<bv8>, url: bool): (r: Result) {
    var n := DataLen(t, 0);
    if !AllValid(t[..n], url) || n % 4 == 1 then Error else Ok(Bytes(t[..n], url))
  }

  /** `oc_decode_base64_internal`. */
  method DecodeBase64(src: seq<bv8>, url: bool) returns (r: Result)
    ensures r == Decode(src, url)
  {
    hide Bytes, Value;
    var len := 0;
    while len < |src| && src[len] != PAD
      invariant 0 <= len <= |src| && DataLen(src, len) == DataLen(src, 0)
      invariant forall j :: 0 <= j < len ==> Value(src[j], url) != INVALID
    {
      if Value(src[len], url) == INVALID {
        assert src[..DataLen(src, 0)][len] == src[len];
        return Error;
      }
      len := len + 1;
    }
    assert AllValid(src[..len], url);
    if len % 4 == 1 {
      return Error;
    }
    var d := Groups(src[..len], url);
    r := Ok(d);
  }

  // The copying loop.
  method Groups(t: seq<bv8>, url: bool) returns (d: seq<bv8>)
    ensures d == Bytes(t, url)
  {
    hide Byte1, Byte2, Byte3, Value, ThreeBytes;
    d := [];
    var i := 0;
    assert t[0..] == t;
    while |t| - i > 3
      invariant 0 <= i <= |t| && d + Bytes(t[i..], url) == Bytes(t, url)
      decreases |t| - i
    {
      var g := ThreeBytes(t[i], t[i + 1], t[i + 2], t[i + 3], url);
      assert t[i..][4..] == t[i + 4..];
      assert d + (g + Bytes(t[i + 4..], url)) == (d + g) + Bytes(t[i + 4..], url);
      d := d + g;
      i := i + 4;
    }
    var left := |t| - i;
    if left > 1 {
      d := d + [Byte1(Value(t[i], url), Value(t[i + 1], url))];
    }
    if left > 2 {
      d := d + [Byte2(Value(t[i + 1], url), Value(t[i + 2], url))];
    }
  }

  // -------------------------------------------------------------------- round trip

  lemma SixBytes(a: bv8, b: bv8, c: bv8)
    ensures Byte1(Six1(a), Six2(a, b)) == a && Byte2(Six2(a, b), Six3(b, c)) == b && Byte3(Six3(b, c), Six4(c)) == c
  {
  }

  /** A group decodes to its bytes. */
  lemma GroupDecodes(a: bv8, b: bv8, c: bv8)
    ensures var g := Group(a, b, c);
      && Byte1(Value(g[0], false), Value(g[1], false)) == a
      && Byte2(Value(g[1], false), Value(g[2], false)) == b
      && Byte3(Value(g[2], false), Value(g[3], false)) == c
    ensures forall i :: 0 <= i < 4 ==> Value(Group(a, b, c)[i], false) != INVALID && Group(a, b, c)[i] != PAD
  {
    SixBits(a, b, c);
    SixBytes(a, b, c);
    LetterHasValue(Six1(a));
    LetterHasValue(Six2(a, b));
    LetterHasValue(Six3(b, c));
    LetterHasValue(Six4(c));
    hide Letter, Value, Byte1, Byte2, Byte3, Six1, Six2, Six3, Six4;
  }

  lemma {:induction false} LettersDecode(s: seq<bv8>)
    ensures Bytes(Letters(s), false) == s && AllValid(Letters(s), false)
    ensures forall i :: 0 <= i < |Letters(s)| ==> Letters(s)[i] != PAD
    decreases |s|
  {
    hide Group, Value, Byte1, Byte2, Byte3;
    if |s| >= 3 {
      GroupDecodes(s[0], s[1], s[2]);
      LettersDecode(s[3..]);
      var g, r := Group(s[0], s[1], s[2]), Letters(s[3..]);
      assert (g + r)[4..] == r;
      assert s == [s[0], s[1], s[2]] + s[3..];
    } else if |s| == 2 {
      GroupDecodes(s[0], s[1], 0);
    } else if |s| == 1 {
      GroupDecodes(s[0], 0, 0);
    }
  }

  // Four letters for each whole group, and one more than the bytes left.
  lemma {:induction false} LettersLength(s: seq<bv8>, k: nat, r: nat)
    requires |s| == 3 * k + r && r < 3
    ensures |Letters(s)| == 4 * k + (if r == 0 then 0 else r + 1)
    decreases k
  {
    hide Group;
    if k > 0 {
      LettersLength(s[3..], k - 1, r);
    }
  }

  lemma DataLenIs(t: seq<bv8>, n: nat)
    requires n <= |t| && (n < |t| ==> t[n] == PAD) && forall j :: 0 <= j < n ==> t[j] != PAD
    ensures DataLen(t, 0) == n
  {
  }

  /** Decoding undoes encoding on every byte string. */
  lemma DecodeUndoesEncode(s: seq<bv8>)
    ensures Decode(Encode(s), false) == Ok(s)
  {
    hide Letters, Bytes, Value;
    LettersDecode(s);
    LettersLength(s, |s| / 3, |s| % 3);
    var t, n := Encode(s), |Letters(s)|;
    assert t[..n] == Letters(s);
    assert forall j :: 0 <= j < n ==> t[j] == Letters(s)[j];
    DataLenIs(t, n);
  }

  /** The encoding has four letters for every three bytes or part of them. */
  lemma EncodedLength(s: seq<bv8>)
    ensures |Encode(s)| == (|s| + 2) / 3 * 4
  {
    var k, r := |s| / 3, |s| % 3;
    LettersLength(s, k, r);
    hide Letters;
    assert (|s| + 2) / 3 == if r == 0 then k else k + 1;
  }

  // ----------------------------------------------------------- the alphabet and its bits

  // The alphabet by its codes: capitals, small letters, digits and '+', '/'.
  const CAPITALS: seq<bv8> := [
    65, 66, 67, 68, 69, 70, 71, 72, 73, 74, 75, 76, 77, 78, 79, 80, 81, 82, 83, 84, 85, 86, 87, 88, 89, 90]
  const SMALLS: seq<bv8> := [
    97, 98, 99, 100, 101, 102, 103, 104, 105, 106, 107, 108, 109, 110, 111, 112, 113, 114, 115, 116, 117, 118, 119, 120, 121, 122]
  const OTHERS: seq<bv8> := [48, 49, 50, 51, 52, 53, 54, 55, 56, 57, 43, 47]

  /** The alphabet for URLs ends in '-' and '_'. */
  function LetterUrl(v: bv8): (c: bv8)
    requires v < 64
  {
    if v == 62 then 45 else if v == 63 then 95 else Letter(v)
  }

  /** Three bytes and their four six-bit values are the same 24 bits. */
  lemma SameBits(a: bv8, b: bv8, c: bv8)
    ensures ((a as bv24) << 16) | ((b as bv24) << 8) | (c as bv24) ==
      ((Six1(a) as bv24) << 18) | ((Six2(a, b) as bv24) << 12) | ((Six3(b, c) as bv24) << 6) | (Six4(c) as bv24)
  {
  }

  /** The letters are those of the alphabet, in order. */
  lemma LettersAreAlphabet()
    ensures [Letter(0), Letter(1), Letter(2), Letter(3), Letter(4), Letter(5), Letter(6), Letter(7), Letter(8),
             Letter(9), Letter(10), Letter(11), Letter(12), Letter(13), Letter(14), Letter(15), Letter(16), Letter(17),
             Letter(18), Letter(19), Letter(20), Letter(21), Letter(22), Letter(23), Letter(24), Letter(25)] == CAPITALS
    ensures [Letter(26), Letter(27), Letter(28), Letter(29), Letter(30), Letter(31), Letter(32), Letter(33), Letter(34),
             Letter(35), Letter(36), Letter(37), Letter(38), Letter(39), Letter(40), Letter(41), Letter(42), Letter(43),
             Letter(44), Letter(45), Letter(46), Letter(47), Letter(48), Letter(49), Letter(50), Letter(51)] == SMALLS
    ensures [Letter(52), Letter(53), Letter(54), Letter(55), Letter(56), Letter(57), Letter(58), Letter(59), Letter(60),
             Letter(61), Letter(62), Letter(63)] == OTHERS
  {
  }

  /** A character has a value exactly if it is a letter of its alphabet, and then the value
      of that letter. */
  lemma ValuesAreAlphabet(c: bv8, v: bv8)
    requires v < 64
    ensures Value(c, false) == v <==> c == Letter(v)
    ensures Value(c, true) == v <==> c == LetterUrl(v)
  {
  }

  function ForUrl(t: seq<bv8>): (u: seq<bv8>)
    ensures |u| == |t| && forall i :: 0 <= i < |t| ==> u[i] == if t[i] == 43 then 45 else if t[i] == 47 then 95 else t[i]
  {
    seq(|t|, i requires 0 <= i < |t| => if t[i] == 43 then 45 else if t[i] == 47 then 95 else t[i])
  }

  lemma SameValue(c: bv8)
    requires Value(c, false) != INVALID && c != PAD
    ensures var d := if c == 43 then 45 else if c == 47 then 95 else c; Value(d, true) == Value(c, false) && d != PAD
  {
  }

  lemma {:induction false} UrlBytes(t: seq<bv8>)
    requires AllValid(t, false) && forall i :: 0 <= i < |t| ==> t[i] != PAD
    ensures Bytes(ForUrl(t), true) == Bytes(t, false)
    decreases |t|
  {
    hide Value, Byte1, Byte2, Byte3;
    forall i | 0 <= i < |t|
      ensures Value(ForUrl(t)[i], true) == Value(t[i], false)
    {
      SameValue(t[i]);
    }
    if |t| > 3 {
      assert ForUrl(t)[4..] == ForUrl(t[4..]);
      UrlBytes(t[4..]);
    }
  }

  /** The decoder for URLs undoes the encoder with '+' and '/' replaced, padded or not. */
  lemma UrlDecodeUndoesEncode(s: seq<bv8>, padded: bool)
    ensures Decode(ForUrl(if padded then Encode(s) else Letters(s)), true) == Ok(s)
  {
    hide Letters, Bytes, Value;
    LettersDecode(s);
    LettersLength(s, |s| / 3, |s| % 3);
    UrlDecodes(Letters(s), ForUrl(if padded then Encode(s) else Letters(s)));
  }

  // Letters for URLs, with padding behind them or nothing.
  lemma UrlDecodes(l: seq<bv8>, t: seq<bv8>)
    requires AllValid(l, false) && (forall i :: 0 <= i < |l| ==> l[i] != PAD) && |l| % 4 != 1 && |l| <= |t|
    requires (forall j :: 0 <= j < |l| ==> t[j] == ForUrl(l)[j]) && (|l| < |t| ==> t[|l|] == PAD)
    ensures Decode(t, true) == Ok(Bytes(l, false))
  {
    hide Bytes, Value;
    UrlBytes(l);
    forall j | 0 <= j < |l|
      ensures t[j] != PAD && Value(t[j], true) != INVALID
    {
      SameValue(l[j]);
    }
    DataLenIs(t, |l|);
    assert t[..|l|] == ForUrl(l);
  }

  /** Four six-bit values and the three bytes they decode to are the same 24 bits. */
  lemma SameBitsBack(a: bv8, b: bv8, c: bv8, d: bv8)
    requires a < 64 && b < 64 && c < 64 && d < 64
    ensures ((Byte1(a, b) as bv24) << 16) | ((Byte2(b, c) as bv24) << 8) | (Byte3(c, d) as bv24) ==
      ((a as bv24) << 18) | ((b as bv24) << 12) | ((c as bv24) << 6) | (d as bv24)
  {
  }

  predicate IsLetter(c: bv8, url: bool) {
    65 <= c <= 90 || 97 <= c <= 122 || 48 <= c <= 57 || (if url then c == 45 || c == 95 else c == 43 || c == 47)
  }

  lemma LettersHaveValues(c: bv8, url: bool)
    ensures IsLetter(c, url) <==> Value(c, url) != INVALID
  {
  }

  /** What stands before the first padding sign decodes if it is all letters and not one
      more than a multiple of four of them; what stands behind does not count. */
  lemma DecodesIff(l: seq<bv8>, rest: seq<bv8>, url: bool)
    requires (forall i :: 0 <= i < |l| ==> l[i] != PAD) && (rest != [] ==> rest[0] == PAD)
    ensures Decode(l + rest, url) ==
      if (forall i :: 0 <= i < |l| ==> IsLetter(l[i], url)) && |l| % 4 != 1 then Ok(Bytes(l, url)) else Error
  {
    hide Value, IsLetter, Bytes;
    var t := l + rest;
    DataLenIs(t, |l|);
    assert t[..|l|] == l;
    forall i | 0 <= i < |l|
      ensures IsLetter(l[i], url) <==> Value(l[i], url) != INVALID
    {
      LettersHaveValues(l[i], url);
    }
  }
}

module ChunkedGrammar {
  // What the chunk decoder accepts, stated over the grammar of the coding (section 4.1 of
  // RFC 7230) and not over the encoder's output: sizes in either case with leading zeros,
  // chunk extensions, trailers, and exactly which sizes are rejected.

  import opened HttpChars
  import opened ChunkedCoding

  // -------------------------------------------------------------------------- sizes

  /** The digits of a size and what each stands for. */
  ghost predicate Spells(digits: string, vs: seq<nat>) {
    |digits| == |vs| && forall i :: 0 <= i < |vs| ==> HexStandsFor(digits[i], vs[i])
  }

  /** The number that base-16 digits stand for. */
  function Number(vs: seq<nat>): (n: nat) {
    if |vs| == 0 then 0 else Number(vs[..|vs| - 1]) * 16 + vs[|vs| - 1]
  }

  predicate NoLf(t: string) {
    forall i :: 0 <= i < |t| ==> t[i] != LF
  }

  // Wrapping at every digit is wrapping once.
  lemma WrapOnce(x: nat, v: nat)
    requires v < 16
    ensures Wrap32(Wrap32(Wrap32(x) * 16) + v) == Wrap32(x * 16 + v)
  {
    var k := (x + 0x8000_0000) / 0x1_0000_0000;
    assert Wrap32(x) == x - k * 0x1_0000_0000;
    WrapShift(x * 16, -16 * k);
    var y := x * 16;
    var m := (y + 0x8000_0000) / 0x1_0000_0000;
    assert Wrap32(y) == y - m * 0x1_0000_0000;
    WrapShift(y + v, -m);
  }

  lemma WrapShift(x: int, k: int)
    ensures Wrap32(x + k * 0x1_0000_0000) == Wrap32(x)
  {
    var a := x + 0x8000_0000;
    assert (a + k * 0x1_0000_0000) % 0x1_0000_0000 == a % 0x1_0000_0000;
  }

  lemma {:induction false} DigitsDecode(d: Decoder, digits: string, vs: seq<nat>)
    requires d.state.ReadSize? && d.sum == 0 && d.digits == 0 && Spells(digits, vs)
    ensures Decode(d, digits) == Decoded(d.(sum := Wrap32(Number(vs)), digits := |digits|), |digits|)
    decreases |digits|
  {
    hide Wrap32, HexValue, HexStandsFor;
    if |digits| > 0 {
      var n := |digits| - 1;
      DigitsDecode(d, digits[..n], vs[..n]);
      var d1 := d.(sum := Wrap32(Number(vs[..n])), digits := n);
      assert digits == digits[..n] + [digits[n]];
      DecodeSplit(d, digits[..n], [digits[n]]);
      HexValueIs(digits[n], vs[n]);
      Step1(d1, digits[n]);
      WrapOnce(Number(vs[..n]), vs[n]);
    }
  }

  /** A size line is accepted exactly if it has a digit and its number, as a 32-bit int, is
      not negative; otherwise the decoder stops at the first character behind the digits. */
  predicate SizeOk(vs: seq<nat>) {
    |vs| > 0 && Wrap32(Number(vs)) >= 0
  }

  lemma SizeRejected(d: Decoder, digits: string, vs: seq<nat>, x: char)
    requires d.state.ReadSize? && d.sum == 0 && d.digits == 0 && Spells(digits, vs) && !IsHex(x)
    ensures Decode(d, digits + [x]).used == |digits| + 1
    ensures Decode(d, digits + [x]).d.state == if SizeOk(vs) then SizeCrlf else Error
    ensures Decode(d, digits + [x]).d.out == d.out
  {
    DigitsDecode(d, digits, vs);
    DecodeSplit(d, digits, [x]);
    Step1(d.(sum := Wrap32(Number(vs)), digits := |digits|), x);
  }

  lemma {:induction false} ExtensionSkipped(d: Decoder, ext: string)
    requires d.state.SizeCrlf? && NoLf(ext)
    ensures Decode(d, ext) == Decoded(d, |ext|)
    decreases |ext|
  {
    if ext != "" {
      assert NoLf(ext[1..]);
      ExtensionSkipped(d, ext[1..]);
    }
  }

  /** A size line: the digits, a character that is no digit, anything but LF, and LF. */
  function SizeLine(digits: string, x: char, ext: string): (t: string) {
    digits + [x] + ext + [LF]
  }

  /** The decoder behind a size line. */
  function Sized(d: Decoder, size: int, digits: nat): (d': Decoder) {
    d.(sum := size, digits := digits, cur := size, left := size,
       state := if size == 0 then TrailerBlank else ReadChunk)
  }

  lemma SizeLineDecodes(d: Decoder, digits: string, vs: seq<nat>, x: char, ext: string)
    requires d.state.ReadSize? && d.sum == 0 && d.digits == 0
    requires Spells(digits, vs) && SizeOk(vs) && !IsHex(x) && NoLf(ext)
    ensures Decode(d, SizeLine(digits, x, ext)) ==
      Decoded(Sized(d, Wrap32(Number(vs)), |digits|), |SizeLine(digits, x, ext)|)
  {
    hide Decode;
    var size := Wrap32(Number(vs));
    var d1 := d.(sum := size, digits := |digits|);
    var d2 := d1.(state := SizeCrlf);
    DigitsDecode(d, digits, vs);
    Step1(d1, x);
    DecodeSplit(d, digits, [x]);
    ExtensionSkipped(d2, ext);
    DecodeSplit(d, digits + [x], ext);
    Step1(d2, LF);
    DecodeSplit(d, digits + [x] + ext, [LF]);
  }

  // ------------------------------------------------------------------------- chunks

  lemma {:induction false} JunkSkipped(d: Decoder, junk: string)
    requires d.state.SizeStart? && NoLf(junk)
    ensures Decode(d, junk) == Decoded(d, |junk|)
    decreases |junk|
  {
    if junk != "" {
      assert NoLf(junk[1..]);
      JunkSkipped(d, junk[1..]);
    }
  }

  /** A chunk as it may be written: the size's digits, the rest of the size line, the data,
      and whatever stands before the next LF (a CR, normally). */
  datatype Piece = Piece(digits: string, vs: seq<nat>, x: char, ext: string, data: string, junk: string)

  ghost predicate PieceOk(p: Piece) {
    && Spells(p.digits, p.vs) && !IsHex(p.x) && NoLf(p.ext) && NoLf(p.junk)
    && Number(p.vs) == |p.data| && 0 < |p.data| < 0x8000_0000
  }

  function PieceText(p: Piece): (t: string) {
    SizeLine(p.digits, p.x, p.ext) + p.data + p.junk + [LF]
  }

  /** Every chunk appends exactly its data, whatever its case, zeros and extension. */
  lemma PieceDecodes(d: Decoder, out: string, p: Piece)
    requires Ready(d, out) && PieceOk(p)
    ensures var r := Decode(d, PieceText(p)); Ready(r.d, out + p.data) && r.used == |PieceText(p)|
  {
    hide Decode;
    var n, a := |p.data|, SizeLine(p.digits, p.x, p.ext);
    var d1 := Sized(d, n, |p.digits|);
    SizeLineDecodes(d, p.digits, p.vs, p.x, p.ext);
    DecodeData(d1, p.data);
    DecodeSplit(d, a, p.data);
    var d2 := d1.(state := SizeStart, left := 0, out := out + p.data);
    JunkSkipped(d2, p.junk);
    DecodeSplit(d, a + p.data, p.junk);
    Step1(d2, LF);
    DecodeSplit(d, a + p.data + p.junk, [LF]);
  }

  // ------------------------------------------------------------------------ trailers

  /** A trailer line that does not end the trailer. */
  predicate TrailerField(line: string) {
    NoLf(line) && line != "" && line != [CR]
  }

  function Lines(ls: seq<string>): (t: string) {
    if |ls| == 0 then "" else ls[0] + [LF] + Lines(ls[1..])
  }

  /** Trailer lines and the blank line, which may hold a CR. */
  function Trailer(ls: seq<string>, cr: bool): (t: string) {
    Lines(ls) + (if cr then CRLF else [LF])
  }

  lemma {:induction false} LineRest(d: Decoder, line: string)
    requires d.state.TrailerLine? && NoLf(line)
    ensures Decode(d, line) == Decoded(d, |line|)
    decreases |line|
  {
    if line != "" {
      assert NoLf(line[1..]);
      LineRest(Step(d, line[0]), line[1..]);
    }
  }

  lemma TrailerLineDecodes(d: Decoder, line: string)
    requires d.state.TrailerBlank? && TrailerField(line)
    ensures Decode(d, line + [LF]) == Decoded(d, |line| + 1)
  {
    var t := d.(state := TrailerLine);
    assert NoLf(line[1..]);
    if line[0] == CR {
      assert |line| > 1 && NoLf(line[2..]) && line[1..][1..] == line[2..];
      LineRest(t, line[2..]);
      assert Decode(d, line) == After(1, Decode(d.(state := TrailerCr), line[1..]));
    } else {
      LineRest(t, line[1..]);
    }
    assert Decode(d, line) == Decoded(t, |line|);
    DecodeSplit(d, line, [LF]);
    Step1(t, LF);
  }

  /** Trailer lines are skipped and the blank line ends the decoding. */
  lemma {:induction false} TrailerDecodes(d: Decoder, ls: seq<string>, cr: bool)
    requires d.state.TrailerBlank? && forall i :: 0 <= i < |ls| ==> TrailerField(ls[i])
    ensures Decode(d, Trailer(ls, cr)) == Decoded(d.(state := Done), |Trailer(ls, cr)|)
    decreases |ls|
  {
    hide Decode;
    if |ls| == 0 {
      assert Trailer(ls, cr) == if cr then CRLF else [LF];
      if cr {
        DecodeCrlf(d);
      } else {
        Step1(d, LF);
      }
    } else {
      TrailerLineDecodes(d, ls[0]);
      TrailerDecodes(d, ls[1..], cr);
      DecodeSplit(d, ls[0] + [LF], Trailer(ls[1..], cr));
      assert Trailer(ls, cr) == ls[0] + [LF] + Trailer(ls[1..], cr);
    }
  }

  // ------------------------------------------------------------------- whole messages

  /** A message: its chunks, the last chunk's size line with number zero, the trailer. */
  datatype Message = Message(pieces: seq<Piece>, zeros: string, vs: seq<nat>, x: char, ext: string,
                             trailer: seq<string>, cr: bool)

  ghost predicate MessageOk(m: Message) {
    && (forall i :: 0 <= i < |m.pieces| ==> PieceOk(m.pieces[i]))
    && Spells(m.zeros, m.vs) && |m.vs| > 0 && Number(m.vs) == 0 && !IsHex(m.x) && NoLf(m.ext)
    && forall i :: 0 <= i < |m.trailer| ==> TrailerField(m.trailer[i])
  }

  function Texts(ps: seq<Piece>): (t: string) {
    if |ps| == 0 then "" else PieceText(ps[0]) + Texts(ps[1..])
  }

  function Data(ps: seq<Piece>): (t: string) {
    if |ps| == 0 then "" else ps[0].data + Data(ps[1..])
  }

  function MessageText(m: Message): (t: string) {
    Texts(m.pieces) + (SizeLine(m.zeros, m.x, m.ext) + Trailer(m.trailer, m.cr))
  }

  lemma {:induction false} PiecesDecode(d: Decoder, out: string, ps: seq<Piece>)
    requires Ready(d, out) && forall i :: 0 <= i < |ps| ==> PieceOk(ps[i])
    ensures var r := Decode(d, Texts(ps)); Ready(r.d, out + Data(ps)) && r.used == |Texts(ps)|
    decreases |ps|
  {
    hide PieceOk, PieceText;
    if |ps| == 0 {
      assert out + "" == out;
    } else {
      hide Decode;
      PieceDecodes(d, out, ps[0]);
      var d1 := Decode(d, PieceText(ps[0])).d;
      PiecesDecode(d1, out + ps[0].data, ps[1..]);
      DecodeSplit(d, PieceText(ps[0]), Texts(ps[1..]));
      assert out + ps[0].data + Data(ps[1..]) == out + Data(ps);
    }
  }

  /** The decoder gives back the data of every well-formed message, is done exactly at the
      end of the blank line, and not at any byte before. */
  lemma MessageDecodes(m: Message, k: nat)
    requires MessageOk(m) && k <= |MessageText(m)|
    ensures var r := Decode(START, MessageText(m));
      r.d.state.Done? && r.d.out == Data(m.pieces) && r.used == |MessageText(m)|
    ensures Stopped(Decode(START, MessageText(m)[..k]).d) <==> k == |MessageText(m)|
  {
    hide Decode, SizeLine, Trailer, Texts;
    var body, a, b := Texts(m.pieces), SizeLine(m.zeros, m.x, m.ext), Trailer(m.trailer, m.cr);
    PiecesDecode(START, "", m.pieces);
    assert "" + Data(m.pieces) == Data(m.pieces);
    var d1 := Decode(START, body).d;
    SizeLineDecodes(d1, m.zeros, m.vs, m.x, m.ext);
    TrailerDecodes(Sized(d1, 0, |m.zeros|), m.trailer, m.cr);
    DecodeSplit(d1, a, b);
    DecodeSplit(START, body, a + b);
    var e := MessageText(m);
    assert e == e[..k] + e[k..];
    DecodeSplit(START, e[..k], e[k..]);
    if k == |e| {
      assert e[..k] == e;
    }
  }

  // --------------------------------------------------------------- what the encoder writes

  /** A size in lower-case digits without a leading zero. */
  ghost predicate Shortest(digits: string, vs: seq<nat>) {
    && |digits| == |vs| > 0 && (|vs| > 1 ==> vs[0] != 0)
    && forall i :: 0 <= i < |vs| ==> vs[i] < 16 && digits[i] == HEX_LOWER[vs[i]]
  }

  lemma {:induction false} HexIsShortest(n: nat) returns (vs: seq<nat>)
    ensures Shortest(Hex(n), vs) && Number(vs) == n && (n > 0 ==> vs[0] != 0)
  {
    hide Number, HexDigit;
    LowerDigit(n % 16);
    if n < 16 {
      vs := [] + [n];
      NumberAppend([], n);
      NoNumber();
    } else {
      var front := HexIsShortest(n / 16);
      vs := front + [n % 16];
      NumberAppend(front, n % 16);
    }
  }

  lemma NumberAppend(front: seq<nat>, v: nat)
    ensures Number(front + [v]) == Number(front) * 16 + v
  {
    assert (front + [v])[..|front|] == front;
  }

  lemma NoNumber()
    ensures Number([]) == 0
  {
  }

  lemma LowerDigit(v: nat)
    requires v < 16
    ensures HexDigit(v) == HEX_LOWER[v]
  {
  }

  /** A chunk is its size in shortest form, CR LF, its data, CR LF. */
  lemma ChunkIsPiece(data: string) returns (vs: seq<nat>)
    ensures Shortest(Hex(|data|), vs) && Number(vs) == |data|
    ensures Chunk(data) == PieceText(Piece(Hex(|data|), vs, '\r', "", data, "\r"))
  {
    vs := HexIsShortest(|data|);
    assert [LF] == "\n" && CRLF == "\r" + [LF];
    assert Hex(|data|) + ['\r'] + "" + [LF] == Hex(|data|) + CRLF;
  }

  function Chunked(cs: seq<string>): (t: string) {
    if |cs| == 0 then "" else Chunk(cs[0]) + Chunked(cs[1..])
  }

  function Joint(cs: seq<string>): (t: string) {
    if |cs| == 0 then "" else cs[0] + Joint(cs[1..])
  }

  /** The encoder cuts the data into chunks of the maximum size, the last one perhaps
      shorter, and none empty. */
  lemma {:induction false} ChunksAreCut(data: string, max: nat) returns (cs: seq<string>)
    requires max > 0
    ensures Chunks(data, max) == Chunked(cs) && Joint(cs) == data
    ensures forall i :: 0 <= i < |cs| ==> 0 < |cs[i]| <= max && (i < |cs| - 1 ==> |cs[i]| == max)
    decreases |data|
  {
    hide Chunk;
    if |data| == 0 {
      cs := [];
    } else if |data| <= max {
      cs := [data];
      assert cs[1..] == [] && Chunked([]) == "" && Joint([]) == "";
      assert Chunk(data) + "" == Chunk(data);
    } else {
      var rest := ChunksAreCut(data[max..], max);
      cs := [data[..max]] + rest;
      assert cs[1..] == rest && data == data[..max] + data[max..];
    }
  }
}

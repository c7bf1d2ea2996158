module ChunkedCoding {
  // The chunked transfer coding (section 4.1 of RFC 7230): what the decoder does with each
  // byte, what the encoder writes, and the proof that the one undoes the other.

  import opened HttpChars

  // -------------------------------------------------------------------- decoder

  datatype ReadState =
    | ReadChunk | SizeStart | ReadSize | SizeCrlf
    | TrailerBlank | TrailerCr | TrailerLine
    | Error | Done

  /** The decoder's fields: the state, the size being read (a 32-bit int) and its digits,
      the size of the current chunk, the bytes of it still to come, and the output. */
  datatype Decoder = Decoder(state: ReadState, sum: int, digits: nat, cur: int, left: int, out: string)

  const START := Decoder(ReadSize, 0, 0, 0, 0, "")

  /** Two's complement wrap-around of a 32-bit int. */
  function Wrap32(x: int): (y: int)
    ensures -0x8000_0000 <= y < 0x8000_0000
    ensures -0x8000_0000 <= x < 0x8000_0000 ==> y == x
  {
    (x + 0x8000_0000) % 0x1_0000_0000 - 0x8000_0000
  }

  predicate Stopped(d: Decoder) {
    d.state.Error? || d.state.Done?
  }

  /** One byte. */
  function Step(d: Decoder, c: char): (d': Decoder)
    requires !Stopped(d)
  {
    match d.state
    case ReadSize =>
      if IsHex(c) then d.(digits := d.digits + 1, sum := Wrap32(Wrap32(d.sum * 16) + HexValue(c)))
      else if d.digits == 0 || d.sum < 0 then d.(state := Error)
      else d.(state := SizeCrlf)
    case SizeCrlf =>
      if c == LF then d.(left := d.sum, cur := d.sum, state := if d.sum == 0 then TrailerBlank else ReadChunk)
      else d
    case SizeStart => StepSizeStart(d, c)
    case ReadChunk =>
      if d.left <= 0 then StepSizeStart(d.(state := SizeStart), c)
      else d.(out := d.out + [c], left := d.left - 1, state := if d.left == 1 then SizeStart else ReadChunk)
    case _ =>
      if c == CR then d.(state := if d.state.TrailerBlank? then TrailerCr else TrailerLine)
      else if c == LF then d.(state := if d.state.TrailerLine? then TrailerBlank else Done)
      else d.(state := TrailerLine)
  }

  function StepSizeStart(d: Decoder, c: char): (d': Decoder) {
    if c == LF then d.(sum := 0, digits := 0, state := ReadSize) else d
  }

  /** The decoder after some input, and how much of it was consumed. */
  datatype Decoded = Decoded(d: Decoder, used: nat)

  function Decode(d: Decoder, s: string): (r: Decoded)
    ensures r.used <= |s|
    ensures r.used < |s| ==> Stopped(r.d)
    decreases |s|
  {
    if s == "" || Stopped(d) then Decoded(d, 0)
    else After(1, Decode(Step(d, s[0]), s[1..]))
  }

  function After(n: nat, r: Decoded): (r': Decoded) {
    r.(used := n + r.used)
  }

  /** Decoding `a + b` is decoding `a` and then `b`: the cut cannot be observed. */
  lemma {:induction false} DecodeSplit(d: Decoder, a: string, b: string)
    ensures Decode(d, a + b) ==
      var r := Decode(d, a); if Stopped(r.d) then r else After(|a|, Decode(r.d, b))
    decreases |a|
  {
    if a == "" {
      assert a + b == b;
    } else if !Stopped(d) {
      assert (a + b)[1..] == a[1..] + b;
      DecodeSplit(Step(d, a[0]), a[1..], b);
    }
  }

  /** What holds of the decoder whatever it is fed: the bytes still to come never exceed
      the chunk, and a chunk being read has bytes to come. */
  predicate Sane(d: Decoder) {
    && 0 <= d.left <= d.cur
    && -0x8000_0000 <= d.sum < 0x8000_0000
    && (d.state.SizeCrlf? ==> d.sum >= 0)
    && (d.state.ReadChunk? ==> d.left > 0)
    && (!d.state.ReadChunk? && !Stopped(d) ==> d.left == 0)
  }

  lemma {:induction false} DecodeSane(d: Decoder, s: string)
    requires Sane(d)
    ensures Sane(Decode(d, s).d)
    decreases |s|
  {
    if s != "" && !Stopped(d) {
      DecodeSane(Step(d, s[0]), s[1..]);
    }
  }

  // -------------------------------------------------------------------- encoder

  /** Lower-case hexadecimal without leading zeros, as "%x" prints it. */
  function Hex(n: nat): (s: string)
    ensures |s| > 0
  {
    if n < 16 then [HexDigit(n)] else Hex(n / 16) + [HexDigit(n % 16)]
  }

  function HexDigit(n: nat): (c: char)
    requires n < 16
    ensures IsHex(c) && HexValue(c) == n
  {
    if n < 10 then ('0' as int + n) as char else ('a' as int + n - 10) as char
  }

  function Chunk(data: string): (s: string) {
    Hex(|data|) + CRLF + data + CRLF
  }

  /** The available data as chunks of at most `max` bytes. */
  function Chunks(data: string, max: nat): (s: string)
    requires max > 0
  {
    if |data| == 0 then ""
    else if |data| <= max then Chunk(data)
    else Chunk(data[..max]) + Chunks(data[max..], max)
  }

  const LAST_CHUNK := "0\r\n\r\n"

  /** One call of the encoder: the data that had become available, and the chunk size. */
  datatype Delivery = Delivery(data: string, max: nat)

  function Body(ds: seq<Delivery>): (s: string) {
    if ds == [] then "" else ds[0].data + Body(ds[1..])
  }

  predicate ChunkSizesOk(ds: seq<Delivery>) {
    forall d :: d in ds ==> 0 < d.max < 0x8000_0000
  }

  /** Everything the encoder writes over all its calls. */
  function Encoded(ds: seq<Delivery>): (s: string)
    requires ChunkSizesOk(ds)
  {
    if ds == [] then LAST_CHUNK else Chunks(ds[0].data, ds[0].max) + Encoded(ds[1..])
  }

  // ------------------------------------------------------------- the round trip

  // The decoder in front of a chunk size, with `out` already decoded.
  predicate Ready(d: Decoder, out: string) {
    d.state.ReadSize? && d.sum == 0 && d.digits == 0 && d.left == 0 && d.out == out
  }

  lemma Step1(d: Decoder, c: char)
    requires !Stopped(d)
    ensures Decode(d, [c]) == Decoded(Step(d, c), 1)
  {
    assert [c][1..] == "";
  }

  lemma {:induction false} DecodeHex(d: Decoder, n: nat)
    requires d.state.ReadSize? && d.sum == 0 && d.digits == 0 && n < 0x8000_0000
    ensures Decode(d, Hex(n)) == Decoded(d.(sum := n, digits := |Hex(n)|), |Hex(n)|)
  {
    if n < 16 {
      Step1(d, HexDigit(n));
    } else {
      DecodeHex(d, n / 16);
      DecodeSplit(d, Hex(n / 16), [HexDigit(n % 16)]);
      Step1(d.(sum := n / 16, digits := |Hex(n / 16)|), HexDigit(n % 16));
    }
  }

  lemma {:induction false} DecodeData(d: Decoder, data: string)
    requires d.state.ReadChunk? && d.left == |data| > 0
    ensures Decode(d, data) == Decoded(d.(state := SizeStart, left := 0, out := d.out + data), |data|)
    decreases |data|
  {
    assert d.out + data == d.out + [data[0]] + data[1..];
    if |data| > 1 {
      DecodeData(Step(d, data[0]), data[1..]);
    } else {
      assert data[1..] == "";
    }
  }

  // Data that does not fill the chunk.
  lemma {:induction false} DecodePart(d: Decoder, data: string)
    requires d.state.ReadChunk? && d.left > |data|
    ensures Decode(d, data) == Decoded(d.(left := d.left - |data|, out := d.out + data), |data|)
    decreases |data|
  {
    if data == "" {
      assert d.out + data == d.out;
    } else {
      assert d.out + data == d.out + [data[0]] + data[1..];
      DecodePart(Step(d, data[0]), data[1..]);
    }
  }

  lemma DecodeCrlf(d: Decoder)
    requires !Stopped(d) && !Stopped(Step(d, CR))
    ensures Decode(d, CRLF) == Decoded(Step(Step(d, CR), LF), 2)
  {
    assert CRLF[1..] == [LF];
    Step1(Step(d, CR), LF);
  }

  lemma DecodeChunk(d: Decoder, out: string, data: string)
    requires Ready(d, out) && 0 < |data| < 0x8000_0000
    ensures var r := Decode(d, Chunk(data)); Ready(r.d, out + data) && r.used == |Chunk(data)|
  {
    var n, h := |data|, Hex(|data|);
    DecodeHex(d, n);
    var d1 := d.(sum := n, digits := |h|);
    DecodeSplit(d, h, CRLF);
    DecodeCrlf(d1);
    var d2 := d1.(left := n, cur := n, state := ReadChunk);
    assert Decode(d, h + CRLF) == Decoded(d2, |h| + 2);
    DecodeSplit(d, h + CRLF, data);
    DecodeData(d2, data);
    var d3 := d2.(state := SizeStart, left := 0, out := out + data);
    assert Decode(d, h + CRLF + data) == Decoded(d3, |h| + 2 + n);
    DecodeSplit(d, h + CRLF + data, CRLF);
    DecodeCrlf(d3);
  }

  lemma {:induction false} DecodeChunks(d: Decoder, out: string, data: string, max: nat)
    requires Ready(d, out) && 0 < max < 0x8000_0000
    ensures var r := Decode(d, Chunks(data, max)); Ready(r.d, out + data) && r.used == |Chunks(data, max)|
    decreases |data|
  {
    if |data| == 0 {
      assert out + data == out;
    } else if |data| <= max {
      DecodeChunk(d, out, data);
    } else {
      DecodeChunk(d, out, data[..max]);
      var d' := Decode(d, Chunk(data[..max])).d;
      DecodeSplit(d, Chunk(data[..max]), Chunks(data[max..], max));
      DecodeChunks(d', out + data[..max], data[max..], max);
      assert out + data[..max] + data[max..] == out + data by {
        assert data == data[..max] + data[max..];
      }
    }
  }

  lemma DecodeLast(d: Decoder, out: string)
    requires Ready(d, out)
    ensures var r := Decode(d, LAST_CHUNK); r.d.state.Done? && r.d.out == out && r.used == |LAST_CHUNK|
  {
    var d1 := d.(digits := 1);
    assert LAST_CHUNK == ['0'] + CRLF + CRLF;
    Step1(d, '0');
    DecodeSplit(d, ['0'], CRLF);
    DecodeCrlf(d1);
    var d2 := d1.(left := 0, cur := 0, state := TrailerBlank);
    assert Decode(d, ['0'] + CRLF) == Decoded(d2, 3);
    DecodeSplit(d, ['0'] + CRLF, CRLF);
    DecodeCrlf(d2);
  }

  // The chunks of one delivery in front of anything.
  lemma DecodeDelivery(d: Decoder, out: string, data: string, max: nat, tail: string) returns (d': Decoder)
    requires Ready(d, out) && 0 < max < 0x8000_0000
    ensures Ready(d', out + data)
    ensures Decode(d, Chunks(data, max) + tail) == After(|Chunks(data, max)|, Decode(d', tail))
  {
    DecodeChunks(d, out, data, max);
    DecodeSplit(d, Chunks(data, max), tail);
    d' := Decode(d, Chunks(data, max)).d;
  }

  lemma {:induction false} DecodeEncoded(d: Decoder, out: string, ds: seq<Delivery>)
    requires Ready(d, out) && ChunkSizesOk(ds)
    ensures var r := Decode(d, Encoded(ds));
      r.d.state.Done? && r.d.out == out + Body(ds) && r.used == |Encoded(ds)|
    decreases |ds|
  {
    if |ds| == 0 {
      DecodeLast(d, out);
      assert out + "" == out;
    } else {
      var data, rest := ds[0].data, ds[1..];
      assert ds[0] in ds && ChunkSizesOk(rest);
      var d' := DecodeDelivery(d, out, data, ds[0].max, Encoded(rest));
      DecodeEncoded(d', out + data, rest);
      assert out + data + Body(rest) == out + (data + Body(rest));
    }
  }

  /** Dechunking undoes chunking: whatever the deliveries and chunk sizes, the decoder
      gives back the body and is done exactly at the last byte, not before. */
  lemma DechunkUndoesChunk(ds: seq<Delivery>, k: nat)
    requires ChunkSizesOk(ds) && k <= |Encoded(ds)|
    ensures var r := Decode(START, Encoded(ds)); r.d.state.Done? && r.d.out == Body(ds) && r.used == |Encoded(ds)|
    ensures Stopped(Decode(START, Encoded(ds)[..k]).d) <==> k == |Encoded(ds)|
  {
    var e := Encoded(ds);
    DecodeEncoded(START, "", ds);
    assert "" + Body(ds) == Body(ds);
    assert e == e[..k] + e[k..];
    DecodeSplit(START, e[..k], e[k..]);
    if k == |e| {
      assert e[..k] == e;
    }
  }

  /** The decoder after input that arrives in slices. */
  function DecodeSlices(d: Decoder, slices: seq<string>): (d': Decoder)
    decreases |slices|
  {
    if slices == [] then d else DecodeSlices(Decode(d, slices[0]).d, slices[1..])
  }

  function Joined(slices: seq<string>): (s: string) {
    if slices == [] then "" else slices[0] + Joined(slices[1..])
  }

  lemma {:induction false} SlicesDoNotMatter(d: Decoder, slices: seq<string>)
    ensures DecodeSlices(d, slices) == Decode(d, Joined(slices)).d
    decreases |slices|
  {
    if slices != [] {
      DecodeSplit(d, slices[0], Joined(slices[1..]));
      SlicesDoNotMatter(Decode(d, slices[0]).d, slices[1..]);
    }
  }

  /** The same for any slicing of the coded bytes, and the decoder stays sane throughout. */
  lemma DechunkAnySlicing(ds: seq<Delivery>, slices: seq<string>, k: nat)
    requires ChunkSizesOk(ds) && Joined(slices) == Encoded(ds) && k <= |slices|
    ensures DecodeSlices(START, slices).state.Done? && DecodeSlices(START, slices).out == Body(ds)
    ensures Sane(DecodeSlices(START, slices[..k]))
  {
    SlicesDoNotMatter(START, slices);
    DechunkUndoesChunk(ds, 0);
    SlicesDoNotMatter(START, slices[..k]);
    DecodeSane(START, Joined(slices[..k]));
  }

  // Up to the next line feed everything is skipped.
  lemma {:induction false} SkipsLine(d: Decoder, line: string, tail: string)
    requires d.state.SizeStart? && forall c :: c in line ==> c != LF
    ensures Decode(d, line + [LF] + tail)
         == After(|line| + 1, Decode(d.(sum := 0, digits := 0, state := ReadSize), tail))
    decreases |line|
  {
    var s := line + [LF] + tail;
    if line == "" {
      assert s[1..] == tail;
    } else {
      assert s[0] == line[0] && line[0] in line;
      assert s[1..] == line[1..] + [LF] + tail;
      assert forall c :: c in line[1..] ==> c in line;
      SkipsLine(d, line[1..], tail);
    }
  }

  lemma HexHasNoLf(n: nat)
    ensures forall c :: c in Hex(n) ==> c != LF
  {
  }

  /** The state the constructor leaves is not a start state: from it the first size line is
      skipped and the data read as a size, so any data that does not start with a
      hexadecimal digit is an error. */
  lemma ConstructorStateMisreads(data: string, tail: string)
    requires data != "" && !IsHex(data[0])
    ensures Decode(START.(state := ReadChunk), Chunk(data) + tail).d.state.Error?
  {
    var d := START.(state := SizeStart);
    var line := Hex(|data|) + [CR];
    var rest := data + CRLF + tail;
    HexHasNoLf(|data|);
    assert Chunk(data) + tail == line + [LF] + rest;
    var s := line + [LF] + rest;
    SkipsLine(d, line, rest);
    assert Decode(START.(state := ReadChunk), s).d == Decode(d, s).d by {
      assert s[0] == line[0] && line[0] in line;
    }
    assert rest[0] == data[0];
  }
}

/** The chunk handler objects: the decoder that reads a chain of buffer blocks, and the
    encoder. Both are proved against `ChunkedCoding`. */
module ChunkedHandler {
  import opened HttpChars
  import opened ChunkedCoding

  const MIN_BLOCK_TRANSFER_BYTES := 256
  const DEFAULT_MAX_CHUNK_SIZE := 4096

  /** The bytes in a chain of blocks. */
  function Bytes(blocks: seq<string>): (s: string) {
    if blocks == [] then "" else blocks[0] + Bytes(blocks[1..])
  }

  ghost predicate NoEmptyBlock(blocks: seq<string>) {
    forall i :: 0 <= i < |blocks| ==> blocks[i] != ""
  }

  /** `IOBufferReader::consume`. */
  function Consume(blocks: seq<string>, n: nat): (rest: seq<string>)
    requires NoEmptyBlock(blocks) && n <= |Bytes(blocks)|
    ensures NoEmptyBlock(rest) && Bytes(rest) == Bytes(blocks)[n..]
  {
    if n == 0 || blocks == [] then blocks
    else
      assert Bytes(blocks)[|blocks[0]|..] == Bytes(blocks[1..]);
      if n >= |blocks[0]| then
        assert Bytes(blocks)[n..] == Bytes(blocks[1..])[n - |blocks[0]|..];
        Consume(blocks[1..], n - |blocks[0]|)
      else
        assert ([blocks[0][n..]] + blocks[1..])[1..] == blocks[1..];
        [blocks[0][n..]] + blocks[1..]
  }

  class Dechunker {
    var reader: seq<string>
    var state: ReadState
    var runningSum: int
    var numDigits: nat
    var curChunkSize: int
    var bytesLeft: int
    var dechunked: string
    var dechunkedSize: nat

    ghost function View(): (d: Decoder)
      reads this
    {
      Decoder(state, runningSum, numDigits, curChunkSize, bytesLeft, dechunked)
    }

    ghost predicate Valid()
      reads this
    {
      NoEmptyBlock(reader) && Sane(View()) && dechunkedSize == |dechunked|
    }

    /** `n` bytes of `all` are consumed, and decoding the rest leads to `r`. */
    ghost predicate Toward(r: Decoded, all: string, n: nat)
      reads this
    {
      n <= |all| && Bytes(reader) == all[n..] && r == After(n, Decode(View(), Bytes(reader)))
    }

    /** The constructor and `init`, with the state set to read a size. */
    constructor (blocks: seq<string>)
      requires NoEmptyBlock(blocks)
      ensures Valid() && View() == START && reader == blocks
    {
      reader := blocks;
      state := ReadSize;
      runningSum, numDigits, curChunkSize, bytesLeft := 0, 0, 0, 0;
      dechunked, dechunkedSize := "", 0;
    }

    // More input arrives.
    method Arrive(block: string)
      requires Valid() && block != ""
      modifies this`reader
      ensures Valid() && Bytes(reader) == old(Bytes(reader)) + block
    {
      BytesAppend(reader, block);
      reader := reader + [block];
    }

    // One byte of a chunk-size line.
    method SizeByte(c: char) returns (done: bool)
      requires InSize() && Sane(View())
      modifies this`state, this`runningSum, this`numDigits, this`curChunkSize, this`bytesLeft
      ensures View() == Step(old(View()), c) && Sane(View()) && (!done ==> InSize())
    {
      done := false;
      if state.ReadSize? {
        if IsHex(c) {
          numDigits := numDigits + 1;
          runningSum := Wrap32(runningSum * 16);
          runningSum := Wrap32(runningSum + HexValue(c));
        } else {
          if numDigits == 0 || runningSum < 0 {
            state := Error;
            done := true;
          } else {
            state := SizeCrlf;
          }
        }
      } else if state.SizeCrlf? {
        if c == LF {
          curChunkSize := runningSum;
          bytesLeft := runningSum;
          state := if runningSum == 0 then TrailerBlank else ReadChunk;
          done := true;
        }
      } else {
        if c == LF {
          runningSum, numDigits := 0, 0;
          state := ReadSize;
        }
      }
    }

    predicate InSize()
      reads this
    {
      state.ReadSize? || state.SizeCrlf? || state.SizeStart?
    }

    predicate InTrailer()
      reads this
    {
      state.TrailerBlank? || state.TrailerCr? || state.TrailerLine?
    }

    // The inner loop of `read_size`: one block, up to the end of the line.
    method SizeBlock(block: string) returns (used: nat, done: bool)
      requires InSize() && Sane(View()) && block != ""
      modifies this`state, this`runningSum, this`numDigits, this`curChunkSize, this`bytesLeft
      ensures 0 < used <= |block| && Sane(View()) && (!done ==> used == |block| && InSize())
      ensures Decode(old(View()), block[..used]) == Decoded(View(), used)
    {
      used, done := 0, false;
      assert block[..0] == "";
      while used < |block| && !done
        invariant 0 <= used <= |block| && Sane(View())
        invariant !done ==> InSize()
        invariant done ==> used > 0
        invariant Decode(old(View()), block[..used]) == Decoded(View(), used)
        decreases |block| - used, !done
      {
        DecodeOneMore(old(View()), block, used);
        used := used + 1;
        done := SizeByte(block[used - 1]);
      }
    }

    /** `read_size`: scan block after block for a complete chunk-size line. */
    method ReadSizeLine()
      requires Valid() && reader != [] && InSize()
      modifies this`reader, this`state, this`runningSum, this`numDigits, this`curChunkSize, this`bytesLeft
      ensures Valid() && |Bytes(reader)| < |old(Bytes(reader))|
      ensures Toward(old(Decode(View(), Bytes(reader))), old(Bytes(reader)), |old(Bytes(reader))| - |Bytes(reader)|)
    {
      var done := false;
      ghost var all := Bytes(reader);
      ghost var r := Decode(View(), all);
      ghost var n: nat := 0;
      while reader != [] && !done
        invariant Valid() && Toward(r, all, n)
        invariant !done ==> InSize()
        invariant n == 0 ==> reader == old(reader) && !done
        decreases |reader|, !done
      {
        var block := reader[0];
        ghost var d := View();
        var used;
        used, done := SizeBlock(block);
        BlockDone(reader, d, used, View());
        reader := Consume(reader, used);
        n := n + used;
      }
    }

    // One round of `transfer_bytes`.
    method TransferSome() returns (moved: nat)
      requires NoEmptyBlock(reader) && bytesLeft > 0 && dechunkedSize == |dechunked|
      modifies this`reader, this`bytesLeft, this`dechunked, this`dechunkedSize
      ensures NoEmptyBlock(reader) && dechunkedSize == |dechunked|
      ensures moved <= old(bytesLeft) && moved <= |old(Bytes(reader))| && (moved == 0 <==> old(reader) == [])
      ensures Bytes(reader) == old(Bytes(reader))[moved..] && bytesLeft == old(bytesLeft) - moved
      ensures dechunked == old(dechunked) + old(Bytes(reader))[..moved]
    {
      moved := 0;
      var avail := if reader == [] then 0 else |reader[0]|;
      var toMove := if bytesLeft < avail then bytesLeft else avail;
      if toMove <= 0 {
        assert Bytes(reader)[..0] == "" && dechunked + "" == dechunked;
        return;
      }
      if toMove >= MIN_BLOCK_TRANSFER_BYTES {
        var whole := Bytes(reader);
        moved := if bytesLeft < |whole| then bytesLeft else |whole|;
        dechunked := dechunked + whole[..moved];
      } else {
        moved := toMove;
        assert Bytes(reader)[..moved] == reader[0][..moved];
        dechunked := dechunked + reader[0][..moved];
      }
      reader := Consume(reader, moved);
      bytesLeft := bytesLeft - moved;
      dechunkedSize := dechunkedSize + moved;
    }

    /** `transfer_bytes`: hand over block references when there is enough, copies of small
        pieces otherwise. */
    method TransferBytes() returns (total: nat)
      requires Valid() && state.ReadChunk?
      modifies this`reader, this`bytesLeft, this`dechunked, this`dechunkedSize
      ensures NoEmptyBlock(reader) && dechunkedSize == |dechunked|
      ensures total == (if old(bytesLeft) < |old(Bytes(reader))| then old(bytesLeft) else |old(Bytes(reader))|)
      ensures Bytes(reader) == old(Bytes(reader))[total..] && bytesLeft == old(bytesLeft) - total
      ensures dechunked == old(dechunked) + old(Bytes(reader))[..total]
    {
      total := 0;
      ghost var all := Bytes(reader);
      assert all[..0] == "" && dechunked + "" == dechunked;
      while bytesLeft > 0
        invariant NoEmptyBlock(reader) && dechunkedSize == |dechunked|
        invariant 0 <= total <= |all| && bytesLeft == old(bytesLeft) - total >= 0
        invariant Bytes(reader) == all[total..] && dechunked == old(dechunked) + all[..total]
      {
        var moved := TransferSome();
        if moved == 0 {
          assert Bytes(reader) == "";
          break;
        }
        assert all[..total + moved] == all[..total] + all[total..][..moved];
        total := total + moved;
      }
    }

    /** `read_chunk`. */
    method ReadChunkData()
      requires Valid() && reader != [] && state.ReadChunk?
      modifies this`reader, this`state, this`bytesLeft, this`dechunked, this`dechunkedSize
      ensures Valid() && |Bytes(reader)| < |old(Bytes(reader))|
      ensures Toward(old(Decode(View(), Bytes(reader))), old(Bytes(reader)), |old(Bytes(reader))| - |Bytes(reader)|)
    {
      ghost var d, all := View(), Bytes(reader);
      assert reader[0] != "" && Bytes(reader) == reader[0] + Bytes(reader[1..]);
      var n := TransferBytes();
      assert all == all[..n] + all[n..];
      DecodeSplit(d, all[..n], all[n..]);
      if bytesLeft == 0 {
        DecodeData(d, all[..n]);
        state := SizeStart;
      } else {
        DecodePart(d, all[..n]);
      }
    }

    // The inner loop of `read_trailer`: one block, up to the end of the trailer.
    method TrailerBlock(block: string) returns (used: nat, done: bool)
      requires InTrailer() && Sane(View()) && block != ""
      modifies this`state
      ensures 0 < used <= |block| && Sane(View()) && (!done ==> used == |block| && InTrailer())
      ensures Decode(old(View()), block[..used]) == Decoded(View(), used)
    {
      used, done := 0, false;
      assert block[..0] == "";
      while used < |block| && !done
        invariant 0 <= used <= |block| && Sane(View())
        invariant !done ==> InTrailer()
        invariant done ==> used > 0
        invariant Decode(old(View()), block[..used]) == Decoded(View(), used)
        decreases |block| - used, !done
      {
        DecodeOneMore(old(View()), block, used);
        used := used + 1;
        var c := block[used - 1];
        if c == CR {
          state := if state.TrailerBlank? then TrailerCr else TrailerLine;
        } else if c == LF {
          if state.TrailerCr? || state.TrailerBlank? {
            state := Done;
            done := true;
          } else {
            state := TrailerBlank;
          }
        } else {
          state := TrailerLine;
        }
      }
    }

    /** `read_trailer`. */
    method ReadTrailer()
      requires Valid() && reader != [] && InTrailer()
      modifies this`reader, this`state
      ensures Valid() && |Bytes(reader)| < |old(Bytes(reader))|
      ensures Toward(old(Decode(View(), Bytes(reader))), old(Bytes(reader)), |old(Bytes(reader))| - |Bytes(reader)|)
    {
      var done := false;
      ghost var all := Bytes(reader);
      ghost var r := Decode(View(), all);
      ghost var n: nat := 0;
      while reader != [] && !done
        invariant Valid() && Toward(r, all, n)
        invariant !done ==> InTrailer()
        invariant n == 0 ==> reader == old(reader) && !done
        decreases |reader|, !done
      {
        var block := reader[0];
        ghost var d := View();
        var used;
        used, done := TrailerBlock(block);
        BlockDone(reader, d, used, View());
        reader := Consume(reader, used);
        n := n + used;
      }
    }

    // One turn of the loop: the reader for the current state.
    method Turn()
      requires Valid() && reader != [] && !Stopped(View())
      modifies this
      ensures Valid() && |Bytes(reader)| < |old(Bytes(reader))|
      ensures Toward(old(Decode(View(), Bytes(reader))), old(Bytes(reader)), |old(Bytes(reader))| - |Bytes(reader)|)
    {
      match state {
        case ReadSize => ReadSizeLine();
        case SizeCrlf => ReadSizeLine();
        case SizeStart => ReadSizeLine();
        case ReadChunk => ReadChunkData();
        case TrailerBlank => ReadTrailer();
        case TrailerCr => ReadTrailer();
        case TrailerLine => ReadTrailer();
      }
    }

    /** `process_chunked_content`: decode everything that is available. */
    method ProcessChunkedContent() returns (done: bool)
      requires Valid()
      modifies this
      ensures Valid() && done == Stopped(View())
      ensures var r := old(Decode(View(), Bytes(reader)));
        View() == r.d && Bytes(reader) == old(Bytes(reader))[r.used..]
    {
      ghost var all := Bytes(reader);
      ghost var r := Decode(View(), all);
      ghost var n: nat := 0;
      while reader != [] && !state.Done? && !state.Error?
        invariant Valid() && Toward(r, all, n)
        decreases |Bytes(reader)|
      {
        ghost var before := Bytes(reader);
        Turn();
        n := n + (|before| - |Bytes(reader)|);
      }
      done := state.Done? || state.Error?;
    }
  }

  lemma {:induction false} BytesAppend(blocks: seq<string>, b: string)
    ensures Bytes(blocks + [b]) == Bytes(blocks) + b
  {
    if blocks == [] {
      assert [b][1..] == [];
    } else {
      assert (blocks + [b])[1..] == blocks[1..] + [b];
      BytesAppend(blocks[1..], b);
    }
  }

  // The decoder after one byte more.
  lemma DecodeOneMore(d: Decoder, s: string, n: nat)
    requires n < |s| && Decode(d, s[..n]).used == n && !Stopped(Decode(d, s[..n]).d)
    ensures Decode(d, s[..n + 1]) == Decoded(Step(Decode(d, s[..n]).d, s[n]), n + 1)
  {
    assert s[..n + 1] == s[..n] + [s[n]];
    DecodeSplit(d, s[..n], [s[n]]);
    Step1(Decode(d, s[..n]).d, s[n]);
  }

  // Decoding the start of the first block is decoding the start of the whole chain.
  lemma BlockDone(blocks: seq<string>, d: Decoder, used: nat, d': Decoder)
    requires NoEmptyBlock(blocks) && blocks != [] && 0 < used <= |blocks[0]|
    requires Decode(d, blocks[0][..used]) == Decoded(d', used)
    ensures used <= |Bytes(blocks)|
    ensures Decode(d, Bytes(blocks)) == After(used, Decode(d', Bytes(Consume(blocks, used))))
    ensures |Consume(blocks, used)| == if used == |blocks[0]| then |blocks| - 1 else |blocks|
  {
    var all := Bytes(blocks);
    assert all[..used] == blocks[0][..used];
    assert all == all[..used] + all[used..];
    DecodeSplit(d, all[..used], all[used..]);
    if used == |blocks[0]| {
      assert Consume(blocks, used) == Consume(blocks[1..], 0) == blocks[1..];
    }
  }

  lemma FirstChunk(before: string, data: string, max: nat)
    requires 0 < max && |data| > 0
    ensures var n := if max < |data| then max else |data|;
      before + Chunks(data, max) == before + (Hex(n) + CRLF) + data[..n] + CRLF + Chunks(data[n..], max)
  {
    var n := if max < |data| then max else |data|;
    assert Chunks(data, max) == Chunk(data[..n]) + Chunks(data[n..], max) by {
      if |data| <= max {
        assert data[..n] == data && Chunks(data[n..], max) == "";
      }
    }
    ConcatAssoc(before, Hex(n) + CRLF, data[..n], CRLF, Chunks(data[n..], max));
  }

  lemma ConcatAssoc(a: string, b: string, c: string, d: string, e: string)
    ensures a + (b + c + d + e) == a + b + c + d + e
  {
  }

  class Chunker {
    var dechunked: string
    var chunked: string
    var chunkedSize: nat
    var maxChunkSize: nat
    var maxChunkHeader: string
    var writeDone: bool

    ghost predicate Valid()
      reads this
    {
      && 0 < maxChunkSize && maxChunkHeader == Hex(maxChunkSize) + CRLF
      && chunkedSize == |chunked|
    }

    constructor ()
      ensures Valid() && chunked == "" && dechunked == "" && !writeDone && maxChunkSize == DEFAULT_MAX_CHUNK_SIZE
    {
      dechunked, chunked, chunkedSize, writeDone := "", "", 0, false;
      maxChunkSize := DEFAULT_MAX_CHUNK_SIZE;
      maxChunkHeader := Hex(DEFAULT_MAX_CHUNK_SIZE) + CRLF;
    }

    /** `set_max_chunk_size`. */
    method SetMaxChunkSize(size: nat)
      requires Valid()
      modifies this`maxChunkSize, this`maxChunkHeader
      ensures Valid() && maxChunkSize == if size == 0 then DEFAULT_MAX_CHUNK_SIZE else size
    {
      maxChunkSize := if size != 0 then size else DEFAULT_MAX_CHUNK_SIZE;
      maxChunkHeader := Hex(maxChunkSize) + CRLF;
    }

    /** `generate_chunked_content`. */
    method GenerateChunkedContent(serverDone: bool) returns (done: bool)
      requires Valid() && !writeDone
      modifies this
      ensures Valid() && done == writeDone == serverDone && dechunked == ""
      ensures maxChunkSize == old(maxChunkSize)
      ensures chunked == old(chunked) + Chunks(old(dechunked), maxChunkSize) + (if serverDone then LAST_CHUNK else "")
    {
      ghost var all := chunked + Chunks(dechunked, maxChunkSize);
      while |dechunked| > 0
        invariant Valid() && !writeDone && maxChunkSize == old(maxChunkSize)
        invariant chunked + Chunks(dechunked, maxChunkSize) == all
      {
        var n := if maxChunkSize < |dechunked| then maxChunkSize else |dechunked|;
        FirstChunk(chunked, dechunked, maxChunkSize);
        var header := maxChunkHeader;
        if n != maxChunkSize {
          header := Hex(n) + CRLF;
        }
        chunked := chunked + header;
        chunkedSize := chunkedSize + |header|;
        chunked := chunked + dechunked[..n];
        chunkedSize := chunkedSize + n;
        dechunked := dechunked[n..];
        chunked := chunked + CRLF;
        chunkedSize := chunkedSize + 2;
      }
      assert chunked == all;
      if serverDone {
        writeDone := true;
        chunked := chunked + LAST_CHUNK;
        chunkedSize := chunkedSize + 5;
      }
      done := serverDone;
    }
  }
}

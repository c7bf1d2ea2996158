module GatherWrite {
  // Writing a chain of buffer blocks to a socket in rounds of gathered pieces, and the
  // accounting that turns the last round's result into the bytes of the whole call. The
  // socket may accept any part of what it is offered, or fail, at every call.

  const UIO_MAXIOV := 1024

  /** The unread bytes from block `i` on, `offset` bytes further. */
  function Rest(blocks: seq<string>, i: nat, offset: nat): (t: string)
    requires i <= |blocks|
    decreases |blocks| - i
  {
    if i == |blocks| then []
    else if offset >= |blocks[i]| then Rest(blocks, i + 1, offset - |blocks[i]|)
    else blocks[i][offset..] + Rest(blocks, i + 1, 0)
  }

  function Joined(iov: seq<string>): (t: string) {
    if |iov| == 0 then [] else Joined(iov[..|iov| - 1]) + iov[|iov| - 1]
  }

  /** All blocks joined, from the i-th on. */
  function Flat(blocks: seq<string>, i: nat): (t: string)
    requires i <= |blocks|
    decreases |blocks| - i
  {
    if i == |blocks| then "" else blocks[i] + Flat(blocks, i + 1)
  }

  /** The unread bytes are the joined blocks without the first `offset` bytes. */
  lemma {:induction false} RestIsFlat(blocks: seq<string>, i: nat, offset: nat)
    requires i <= |blocks|
    ensures Reaches(blocks, i, offset) <==> offset <= |Flat(blocks, i)|
    ensures offset <= |Flat(blocks, i)| ==> Rest(blocks, i, offset) == Flat(blocks, i)[offset..]
    decreases |blocks| - i
  {
    if i < |blocks| {
      if offset >= |blocks[i]| {
        RestIsFlat(blocks, i + 1, offset - |blocks[i]|);
      } else {
        RestIsFlat(blocks, i + 1, 0);
        ReachesZero(blocks, i + 1);
        assert Flat(blocks, i)[offset..] == blocks[i][offset..] + Flat(blocks, i + 1);
      }
    }
  }

  /** Consuming is moving the offset on. */
  lemma {:induction false} Consume(blocks: seq<string>, i: nat, offset: nat, n: nat)
    requires i <= |blocks| && n <= |Rest(blocks, i, offset)|
    ensures Rest(blocks, i, offset + n) == Rest(blocks, i, offset)[n..]
    decreases |blocks| - i
  {
    if i < |blocks| {
      var here := |blocks[i]| - offset;
      if here <= 0 {
        Consume(blocks, i + 1, offset - |blocks[i]|, n);
      } else if n < here {
        assert Rest(blocks, i, offset)[n..] == blocks[i][offset..][n..] + Rest(blocks, i + 1, 0);
      } else {
        Consume(blocks, i + 1, 0, n - here);
      }
    }
  }

  /** Appending blocks appends bytes, once the offset lies inside the chain. */
  lemma {:induction false} Append(blocks: seq<string>, more: seq<string>, i: nat, offset: nat)
    requires i <= |blocks| && Reaches(blocks, i, offset)
    ensures Rest(blocks + more, i, offset) == Rest(blocks, i, offset) + Rest(more, 0, 0)
    decreases |blocks| - i
  {
    if i < |blocks| {
      assert (blocks + more)[i] == blocks[i];
      Append(blocks, more, i + 1, if offset >= |blocks[i]| then offset - |blocks[i]| else 0);
    } else {
      Tail(blocks, more, 0);
    }
  }

  /** The offset does not lead beyond the last block. */
  predicate Reaches(blocks: seq<string>, i: nat, offset: nat)
    requires i <= |blocks|
    decreases |blocks| - i
  {
    if i == |blocks| then offset == 0
    else Reaches(blocks, i + 1, if offset >= |blocks[i]| then offset - |blocks[i]| else 0)
  }

  lemma {:induction false} ConsumeReaches(blocks: seq<string>, i: nat, offset: nat, n: nat)
    requires i <= |blocks| && n <= |Rest(blocks, i, offset)| && Reaches(blocks, i, offset)
    ensures Reaches(blocks, i, offset + n)
    decreases |blocks| - i
  {
    if i < |blocks| {
      var here := |blocks[i]| - offset;
      if here <= 0 {
        ConsumeReaches(blocks, i + 1, offset - |blocks[i]|, n);
      } else if n >= here {
        ConsumeReaches(blocks, i + 1, 0, n - here);
      }
    }
  }

  lemma {:induction false} AppendReaches(blocks: seq<string>, more: seq<string>, i: nat, offset: nat)
    requires i <= |blocks| && Reaches(blocks, i, offset)
    ensures Reaches(blocks + more, i, offset)
    decreases |blocks| - i
  {
    if i < |blocks| {
      assert (blocks + more)[i] == blocks[i];
      AppendReaches(blocks, more, i + 1, if offset >= |blocks[i]| then offset - |blocks[i]| else 0);
    } else {
      ReachesZero(blocks + more, i);
    }
  }

  lemma {:induction false} ReachesZero(blocks: seq<string>, i: nat)
    requires i <= |blocks|
    ensures Reaches(blocks, i, 0)
    decreases |blocks| - i
  {
    if i < |blocks| {
      ReachesZero(blocks, i + 1);
    }
  }

  lemma {:induction false} Tail(blocks: seq<string>, more: seq<string>, j: nat)
    requires j <= |more|
    ensures Rest(blocks + more, |blocks| + j, 0) == Rest(more, j, 0)
    decreases |more| - j
  {
    if j < |more| {
      assert (blocks + more)[|blocks| + j] == more[j];
      Tail(blocks, more, j + 1);
    }
  }

  lemma JoinedStep(iov: seq<string>, piece: string)
    ensures Joined(iov + [piece]) == Joined(iov) + piece
  {
    assert (iov + [piece])[..|iov|] == iov;
  }

  // ------------------------------------------------------------------------ socket

  /** One call of the socket: what it was offered and what it answered. */
  datatype Round = Round(data: string, result: int)
  {
    function Took(): (n: int) { if result > 0 then result else 0 }
    predicate Whole() { result == |data| }
  }

  function Offered(rs: seq<Round>): (t: string) {
    if |rs| == 0 then "" else Offered(rs[..|rs| - 1]) + rs[|rs| - 1].data
  }

  function TookAll(rs: seq<Round>): (n: int) {
    if |rs| == 0 then 0 else TookAll(rs[..|rs| - 1]) + rs[|rs| - 1].Took()
  }

  /** A socket: it accepts a prefix of what it is offered, or fails with a value <= 0. */
  class Socket {
    var accepted: string
    ghost var log: seq<Round>

    constructor ()
      ensures accepted == [] && log == []
    {
      accepted, log := [], [];
    }

    method Send(data: string) returns (result: int)
      modifies this
      ensures result <= |data| && log == old(log) + [Round(data, result)]
      ensures accepted == old(accepted) + (if result > 0 then data[..result] else [])
    {
      result := *;
      if result > |data| {
        result := |data|;
      }
      if result > 0 {
        accepted := accepted + data[..result];
      }
      log := log + [Round(data, result)];
    }
  }

  // ------------------------------------------------------------------- gather rounds

  /** One round's pieces: the next bytes of the chain, up to `want`, in at most UIO_MAXIOV
      pieces; something whenever something is wanted and there. */
  method Gather(blocks: seq<string>, b0: nat, offset0: nat, want: nat) returns (iov: seq<string>, b: nat, offset: nat, total: nat)
    requires b0 <= |blocks| && want <= |Rest(blocks, b0, offset0)|
    ensures b <= |blocks| && |iov| <= UIO_MAXIOV && total <= want
    ensures Joined(iov) == Rest(blocks, b0, offset0)[..total]
    ensures total < want ==> Rest(blocks, b, offset) == Rest(blocks, b0, offset0)[total..]
    ensures want > 0 ==> total > 0
    ensures total < want ==> |iov| == UIO_MAXIOV
  {
    iov, b, offset, total := [], b0, offset0, 0;
    ghost var all := Rest(blocks, b0, offset0);
    while b < |blocks| && |iov| < UIO_MAXIOV
      invariant b <= |blocks| && |iov| <= UIO_MAXIOV && total <= want && (|iov| > 0 ==> total > 0)
      invariant Joined(iov) == all[..total]
      invariant total < want ==> Rest(blocks, b, offset) == all[total..]
      decreases |blocks| - b
    {
      var avail := |blocks[b]| - offset;
      if avail <= 0 {
        offset := -avail;
        b := b + 1;
        continue;
      }
      if avail > want - total {
        avail := want - total;
      }
      if avail == 0 {
        break;
      }
      var piece := blocks[b][offset..offset + avail];
      PieceTaken(blocks, b, offset, all, total, avail);
      JoinedStep(iov, piece);
      total := total + avail;
      iov := iov + [piece];
      offset := 0;
      b := b + 1;
    }
  }

  // A piece of the current block continues what was gathered.
  lemma PieceTaken(blocks: seq<string>, b: nat, offset: nat, all: string, total: nat, n: nat)
    requires b < |blocks| && offset + n <= |blocks[b]| && n > 0 && total + n <= |all|
    requires Rest(blocks, b, offset) == all[total..]
    ensures all[..total] + blocks[b][offset..offset + n] == all[..total + n]
    ensures offset + n == |blocks[b]| ==> Rest(blocks, b + 1, 0) == all[total + n..]
  {
    var here := blocks[b][offset..];
    assert all[total..] == here + Rest(blocks, b + 1, 0);
    assert blocks[b][offset..offset + n] == here[..n] == all[total..][..n] == all[total..total + n];
    assert all[..total + n] == all[..total] + all[total..total + n];
    if n == |here| {
      assert all[total + n..] == all[total..][n..];
    }
  }

  /** What one call knows when it returns: the last result, the bytes of the last round and
      the bytes of all rounds. */
  datatype Outcome = Outcome(result: int, wattempted: nat, total: nat)

  /** The bytes the socket took: every round but the last was taken whole. */
  function Taken(o: Outcome): (n: int) {
    o.total - o.wattempted + (if o.result > 0 then o.result else 0)
  }

  /** The rounds of one call: each offers the bytes behind the last, each but the last was
      taken whole, and they go on until everything wanted was offered or one was not. */
  ghost predicate RoundsOf(rs: seq<Round>, waiting: string, towrite: nat) {
    && |rs| > 0 && |Offered(rs)| <= towrite <= |waiting| && Offered(rs) == waiting[..|Offered(rs)|]
    && (forall i :: 0 <= i < |rs| ==> |rs[i].data| > 0 && rs[i].result <= |rs[i].data|)
    && (forall i :: 0 <= i < |rs| - 1 ==> rs[i].Whole())
    && (rs[|rs| - 1].Whole() ==> |Offered(rs)| == towrite)
  }

  /** `load_buffer_and_write`. */
  method LoadBufferAndWrite(blocks: seq<string>, start: nat, towrite: nat, sock: Socket) returns (o: Outcome, ghost rs: seq<Round>)
    requires 0 < towrite <= |Rest(blocks, 0, start)|
    modifies sock
    ensures sock.log == old(sock.log) + rs && |rs| > 0 && RoundsOf(rs, Rest(blocks, 0, start), towrite)
    ensures o == Outcome(rs[|rs| - 1].result, |rs[|rs| - 1].data|, |Offered(rs)|) && Taken(o) == TookAll(rs)
    ensures o.wattempted <= o.total && Taken(o) <= towrite
    ensures sock.accepted == old(sock.accepted) + Rest(blocks, 0, start)[..Taken(o)]
  {
    hide Rest, Joined, RoundsOf, Offered, TookAll;
    ghost var all := Rest(blocks, 0, start);
    var b: nat, offset: nat := 0, start;
    var total: nat := 0;
    var result, wattempted := 0, 0;
    ghost var before, log := sock.accepted, sock.log;
    rs := [];
    ghost var done: seq<Round> := [];
    NothingOffered();
    assert all[..0] == "";
    while true
      invariant b <= |blocks| && total < towrite && Rest(blocks, b, offset) == all[total..]
      invariant sock.accepted == before + all[..total] && sock.log == log + done
      invariant Offered(done) == all[..total] && TookAll(done) == total
      invariant forall i :: 0 <= i < |done| ==> |done[i].data| > 0 && done[i].Whole()
      decreases towrite - total
    {
      var iov, n;
      iov, b, offset, n := Gather(blocks, b, offset, towrite - total);
      ghost var last := total;
      total := total + n;
      wattempted := n;
      result := sock.Send(Joined(iov));
      RoundTaken(all, last, n, result);
      ghost var r := Round(Joined(iov), result);
      RoundLogged(done, r);
      rs := done + [r];
      assert log + done + [r] == log + rs;
      if !(result == wattempted && total < towrite) {
        LastRound(done, r, all, towrite);
        break;
      }
      done := rs;
    }
    o := Outcome(result, wattempted, total);
  }

  lemma NothingOffered()
    ensures Offered([]) == "" && TookAll([]) == 0
  {
  }

  lemma LastRound(done: seq<Round>, r: Round, all: string, towrite: nat)
    requires forall i :: 0 <= i < |done| ==> |done[i].data| > 0 && done[i].Whole()
    requires |r.data| > 0 && r.result <= |r.data|
    requires |Offered(done + [r])| <= towrite <= |all| && Offered(done + [r]) == all[..|Offered(done + [r])|]
    requires r.Whole() ==> |Offered(done + [r])| == towrite
    ensures RoundsOf(done + [r], all, towrite)
  {
    hide Offered;
  }

  lemma RoundLogged(rs: seq<Round>, r: Round)
    ensures Offered(rs + [r]) == Offered(rs) + r.data && TookAll(rs + [r]) == TookAll(rs) + r.Took()
  {
    assert (rs + [r])[..|rs|] == rs;
  }

  lemma RoundTaken(all: string, last: nat, n: nat, result: int)
    requires last + n <= |all| && result <= n
    ensures all[last..][n..] == all[last + n..] && all[..last] + all[last..][..n] == all[..last + n]
    ensures var k := if result > 0 then result else 0; all[..last] + all[last..][..n][..k] == all[..last + k]
  {
  }

  /** The summary in `handle_output`. */
  function Summarized(o: Outcome): (r: int) {
    if o.total != o.wattempted then
      if o.result <= 0 then o.total - o.wattempted else o.total - o.wattempted + o.result
    else o.result
  }

  /** The summary is the number of bytes taken when it is positive, and nothing was taken
      when it is not. */
  lemma SummaryIsTaken(o: Outcome)
    requires o.wattempted <= o.total
    ensures Summarized(o) > 0 ==> Taken(o) == Summarized(o)
    ensures Summarized(o) <= 0 ==> Taken(o) == 0
  {
  }

  // ---------------------------------------------------------------------- connector

  /** What the user does when told that the buffer can be filled. */
  datatype Reply = Closed | Fill(more: seq<string>)

  /** The write side of a connector. */
  class Connector {
    var blocks: seq<string>
    var startOffset: nat
    var ndone: nat
    var nbytes: nat
    const sock: Socket
    ghost var queued: string

    /** Every queued byte is accepted or still waiting, in order, and counted once. */
    ghost predicate Valid()
      reads this, sock
    {
      && Reaches(blocks, 0, startOffset)
      && queued == sock.accepted + Rest(blocks, 0, startOffset)
      && ndone == |sock.accepted| <= nbytes
    }

    constructor (nbytes: nat)
      ensures Valid() && queued == [] && this.nbytes == nbytes && fresh(sock)
    {
      blocks, startOffset, ndone, queued := [], 0, 0, [];
      this.nbytes := nbytes;
      sock := new Socket();
    }

    method Enqueue(more: seq<string>)
      requires Valid()
      modifies this`blocks, this`queued
      ensures Valid() && queued == old(queued) + Rest(more, 0, 0) && blocks == old(blocks) + more
    {
      Append(blocks, more, 0, startOffset);
      AppendReaches(blocks, more, 0, startOffset);
      blocks := blocks + more;
      queued := queued + Rest(more, 0, 0);
    }

    /** The bytes still waiting. */
    function Waiting(): (t: string)
      reads this
    {
      Rest(blocks, 0, startOffset)
    }

    /** The user is asked for more: there is less to write than is left to do. */
    predicate Asks(enabled: bool, canFill: bool)
      reads this
    {
      enabled && ndone < nbytes && |Waiting()| < nbytes - ndone && canFill
    }

    /** `handle_output`: whatever the socket does, the accepted bytes stay a prefix of the
        queued bytes, grow by exactly a positive return value and never pass `nbytes`. If
        there is anything to do, everything there is but not more than is left to do is
        offered, round after round, until a round is not taken whole; the return value is
        the bytes taken, or the socket's last answer if there are none. */
    method HandleOutput(enabled: bool, canFill: bool, reply: Reply) returns (r: int, ghost rs: seq<Round>)
      requires Valid()
      modifies this, sock
      ensures Valid() && nbytes == old(nbytes) && old(queued) <= queued && sock.accepted <= queued
      ensures |sock.accepted| == |old(sock.accepted)| + (if r > 0 then r else 0)
      ensures ndone == old(ndone) + (if r > 0 then r else 0) <= nbytes
      ensures old(sock.accepted) <= sock.accepted && sock.log == old(sock.log) + rs
      ensures queued == old(queued) + if old(Asks(enabled, canFill)) && reply.Fill? then Rest(reply.more, 0, 0) else ""
      ensures var waiting := queued[|old(sock.accepted)|..]; var left := nbytes - old(ndone);
        if enabled && left > 0 && |waiting| > 0 && !(old(Asks(enabled, canFill)) && reply.Closed?) then
          && RoundsOf(rs, waiting, if |waiting| < left then |waiting| else left)
          && r == (if TookAll(rs) > 0 then TookAll(rs) else rs[|rs| - 1].result)
        else rs == [] && r == 0
    {
      hide Rest, Reaches, RoundsOf;
      r, rs := 0, [];
      WaitingIs();
      assert queued + "" == queued;
      if !enabled || nbytes - ndone <= 0 {
        return;
      }
      var towrite := ToWrite();
      if towrite != nbytes - ndone && canFill {
        if reply.Closed? {
          return;
        }
        Enqueue(reply.more);
        WaitingIs();
        towrite := ToWrite();
      }
      if towrite <= 0 {
        return;
      }
      r, rs := Flush(towrite);
    }

    lemma WaitingIs()
      requires Valid()
      ensures queued[|sock.accepted|..] == Waiting()
    {
    }

    // What is there, but not more than what is left to do.
    method ToWrite() returns (towrite: nat)
      requires Valid()
      ensures towrite == if |Waiting()| < nbytes - ndone then |Waiting()| else nbytes - ndone
    {
      towrite := |Rest(blocks, 0, startOffset)|;
      if towrite > nbytes - ndone {
        towrite := nbytes - ndone;
      }
    }

    // Write, summarize, consume.
    method Flush(towrite: nat) returns (r: int, ghost rs: seq<Round>)
      requires Valid() && 0 < towrite <= |Waiting()| && towrite <= nbytes - ndone
      modifies this`startOffset, this`ndone, sock
      ensures Valid() && r <= towrite && old(sock.accepted) <= sock.accepted
      ensures |sock.accepted| == |old(sock.accepted)| + (if r > 0 then r else 0)
      ensures sock.log == old(sock.log) + rs && RoundsOf(rs, old(Waiting()), towrite) && |rs| > 0
      ensures r == if TookAll(rs) > 0 then TookAll(rs) else rs[|rs| - 1].result
    {
      hide Rest, Reaches, RoundsOf, TookAll;
      ghost var rest := Rest(blocks, 0, startOffset);
      var o;
      o, rs := LoadBufferAndWrite(blocks, startOffset, towrite, sock);
      r := o.result;
      if o.total != o.wattempted {
        if r <= 0 {
          r := o.total - o.wattempted;
        } else {
          r := o.total - o.wattempted + r;
        }
      }
      SummaryIsTaken(o);
      if r > 0 {
        Consume(blocks, 0, startOffset, r);
        ConsumeReaches(blocks, 0, startOffset, r);
        assert rest == rest[..r] + rest[r..];
        startOffset := startOffset + r;
        ndone := ndone + r;
      }
    }
  }
}

/** The connection the client talks over, replaced by an abstract byte
    source: the bytes the server has still to deliver, a chunking oracle that
    decides how many of them each recv call returns, and one trace of every
    send and recv call in the order they happened. Also the predicates that
    say what a well-behaved command cycle leaves in that trace. */
module Transport {
  import opened Wire
  import opened Sequences

  /** One socket call: a message handed to sock_sendall, or a sock_recv that
      asked for `asked` bytes and returned `data`. */
  datatype Event = Send(message: string) | Recv(asked: nat, data: seq<byte>)

  /** How many bytes a recv asking for `n` returns when `available` bytes
      are pending and the oracle proposes `proposal`: never more than asked
      or pending, at least one when one was asked for and one is pending, and
      nothing from a peer that has nothing more to send. */
  function Delivered(proposal: nat, n: nat, available: nat): (k: nat)
    ensures k <= n && k <= available
    ensures n >= 1 && available >= 1 ==> k >= 1
    ensures available == 0 ==> k == 0
  {
    if n == 0 || available == 0 then 0
    else if proposal < 1 then 1
    else Min(proposal, Min(n, available))
  }

  class Socket {
    /** Bytes the server has written that the client has not read yet. */
    var inbound: seq<byte>
    /** Every call made on this socket, oldest first. */
    var trace: seq<Event>
    /** For the k-th call on the socket asking for n bytes, how many arrive
        (clamped by Delivered). */
    const chunking: (nat, nat) -> nat

    constructor (inbound: seq<byte>, chunking: (nat, nat) -> nat)
      ensures this.inbound == inbound && this.chunking == chunking && trace == []
    {
      this.inbound := inbound;
      this.chunking := chunking;
      trace := [];
    }

    /** sock_sendall: the whole message goes out before anything else happens. */
    method SendAll(message: string)
      modifies this
      ensures trace == old(trace) + [Send(message)]
      ensures inbound == old(inbound)
    {
      trace := trace + [Send(message)];
    }

    /** sock_recv(n): the next pending bytes, as many as the oracle lets through. */
    method Recv(n: nat) returns (data: seq<byte>)
      modifies this
      ensures |data| == Delivered(chunking(|old(trace)|, n), n, |old(inbound)|)
      ensures data == old(inbound)[..|data|] && inbound == old(inbound)[|data|..]
      ensures trace == old(trace) + [Event.Recv(n, data)]
    {
      var k := Delivered(chunking(|trace|, n), n, |inbound|);
      data := inbound[..k];
      inbound := inbound[k..];
      trace := trace + [Event.Recv(n, data)];
    }
  }

  /** The bytes the recv calls in `evs` returned, in order. */
  function Data(evs: seq<Event>): seq<byte>
  {
    if evs == [] then []
    else
      var e := evs[|evs| - 1];
      Data(evs[..|evs| - 1]) + (if e.Recv? then e.data else [])
  }

  /** The messages the send calls in `evs` carried, in order. */
  function Sends(evs: seq<Event>): seq<string>
  {
    if evs == [] then []
    else
      var e := evs[|evs| - 1];
      Sends(evs[..|evs| - 1]) + (if e.Send? then [e.message] else [])
  }

  lemma {:induction false} DataAppend(a: seq<Event>, b: seq<Event>)
    ensures Data(a + b) == Data(a) + Data(b)
    decreases |b|
  {
    if b == [] {
      assert a + b == a;
    } else {
      assert (a + b)[..|a + b| - 1] == a + b[..|b| - 1];
      DataAppend(a, b[..|b| - 1]);
    }
  }

  lemma {:induction false} SendsAppend(a: seq<Event>, b: seq<Event>)
    ensures Sends(a + b) == Sends(a) + Sends(b)
    decreases |b|
  {
    if b == [] {
      assert a + b == a;
    } else {
      assert (a + b)[..|a + b| - 1] == a + b[..|b| - 1];
      SendsAppend(a, b[..|b| - 1]);
    }
  }

  /** `rs` is what the read loops of one cmd have done so far while collecting
      frame `f`: every call is a recv asking for Want(held, length), returning
      between one byte and what it asked for, and those bytes are the next
      bytes of the frame. */
  predicate ValidReads(rs: seq<Event>, f: seq<byte>)
    requires IsFrame(f)
  {
    rs == [] ||
    (ValidReads(rs[..|rs| - 1], f) &&
     var h, r := |Data(rs[..|rs| - 1])|, rs[|rs| - 1];
     r.Recv? && r.asked == Want(h, BodyLength(f)) && 1 <= |r.data| <= r.asked
     && h + |r.data| <= |f| && r.data == f[h..h + |r.data|])
  }

  /** The read loops have stopped: nothing more is wanted. */
  predicate CompleteReads(rs: seq<Event>, f: seq<byte>)
    requires IsFrame(f)
  {
    ValidReads(rs, f) && Want(|Data(rs)|, BodyLength(f)) == 0
  }

  /** The reads never run past the frame: what they returned is a prefix of it. */
  lemma {:induction false} ValidReadsPrefix(rs: seq<Event>, f: seq<byte>)
    requires IsFrame(f) && ValidReads(rs, f)
    ensures |Data(rs)| <= |f| && Data(rs) == f[..|Data(rs)|]
  {
    if rs != [] {
      var pre := rs[..|rs| - 1];
      ValidReadsPrefix(pre, f);
      var h, r := |Data(pre)|, rs[|rs| - 1];
      assert Data(rs) == Data(pre) + r.data;
      assert f[..h + |r.data|] == f[..h] + f[h..h + |r.data|];
    }
  }

  /** One more recv call that follows the pattern extends the reads. */
  lemma ReadStep(rs: seq<Event>, r: Event, f: seq<byte>)
    requires IsFrame(f) && ValidReads(rs, f) && r.Recv?
    requires r.asked == Want(|Data(rs)|, BodyLength(f)) && 1 <= |r.data| <= r.asked
    requires |Data(rs)| + |r.data| <= |f| && r.data == f[|Data(rs)|..|Data(rs)| + |r.data|]
    ensures ValidReads(rs + [r], f) && Data(rs + [r]) == Data(rs) + r.data
  {
    assert (rs + [r])[..|rs|] == rs;
  }

  /** A recv call of the read loops, made while the bytes `held` of the frame
      `f` at the head of `s` have been collected and the rest of `s` is still
      pending, asking for what the loops want: it extends the reads, and what
      it returns is the next bytes of `s`. */
  lemma RecvStep(s: seq<byte>, f: seq<byte>, rs: seq<Event>, held: seq<byte>, data: seq<byte>, n: nat)
    requires IsFrame(f) && |f| <= |s| && f == s[..|f|]
    requires ValidReads(rs, f) && Data(rs) == held && |held| <= |s| && held == s[..|held|]
    requires n == Want(|held|, BodyLength(f)) && 1 <= |data| <= n && data == s[|held|..][..|data|]
    ensures ValidReads(rs + [Event.Recv(n, data)], f) && Data(rs + [Event.Recv(n, data)]) == held + data
    ensures |held + data| <= |f| && held + data == s[..|held + data|]
    ensures s[|held|..][|data|..] == s[|held + data|..]
  {
    ValidReadsPrefix(rs, f);
    PrefixGrow(s, held, data);
    PrefixWithin(s, f, |held|, |data|);
    ReadStep(rs, Event.Recv(n, data), f);
    DropDrop(s, held, data);
  }

  /** Once the loops stop they hold exactly the frame: 9 header bytes and the
      declared number of body bytes, never more and never fewer. */
  lemma CompleteReadsFrame(rs: seq<Event>, f: seq<byte>)
    requires IsFrame(f) && CompleteReads(rs, f)
    ensures Data(rs) == f
    ensures |Data(rs)| == HeaderSize + BodyLength(f)
  {
    ValidReadsPrefix(rs, f);
  }

  /** The request pattern of the read loops for one recv call `r` made while
      `h` bytes of a frame of `size` bytes were held: while the header is
      incomplete the call asks for the 9 - h missing bytes; the first body
      call asks for one byte; every later body call asks for what is missing,
      capped at 32. Every request is between 1 and 32 bytes, returns at least
      one byte and at most what it asked for, and is made before the frame is
      complete. */
  predicate RequestPattern(r: Event, h: nat, size: nat)
  {
    r.Recv? && 1 <= r.asked <= BodyChunk && 1 <= |r.data| <= r.asked && h < size
    && (h < HeaderSize ==> r.asked == HeaderSize - h)
    && (h == HeaderSize ==> r.asked == 1)
    && (h > HeaderSize ==> r.asked == Min(size - h, BodyChunk))
  }

  /** Every recv call of the read loops follows the request pattern, read by
      the number of bytes held before the call. */
  lemma {:induction false} ReadRequests(rs: seq<Event>, f: seq<byte>)
    requires IsFrame(f) && ValidReads(rs, f)
    ensures forall i :: 0 <= i < |rs| ==> RequestPattern(rs[i], |Data(rs[..i])|, |f|)
  {
    if rs != [] {
      var pre := rs[..|rs| - 1];
      ReadRequests(pre, f);
      LastRequest(rs, f);
      forall i | 0 <= i < |rs|
        ensures RequestPattern(rs[i], |Data(rs[..i])|, |f|)
      {
        if i < |rs| - 1 {
          assert rs[..i] == pre[..i] && rs[i] == pre[i];
          assert RequestPattern(pre[i], |Data(pre[..i])|, |f|);
        } else {
          assert rs[..i] == pre;
        }
      }
    }
  }

  lemma LastRequest(rs: seq<Event>, f: seq<byte>)
    requires IsFrame(f) && ValidReads(rs, f) && rs != []
    ensures RequestPattern(rs[|rs| - 1], |Data(rs[..|rs| - 1])|, |f|)
  {
    var h, r := |Data(rs[..|rs| - 1])|, rs[|rs| - 1];
    WantRequest(h, BodyLength(f));
  }

  /** A header that declares an empty body is answered without any body read:
      every recv call of the cycle was made while the header was incomplete. */
  lemma ZeroLengthNoBodyRead(rs: seq<Event>, f: seq<byte>)
    requires IsFrame(f) && BodyLength(f) == 0 && CompleteReads(rs, f)
    ensures forall i :: 0 <= i < |rs| ==>
      |Data(rs[..i])| < HeaderSize && rs[i].Recv? && rs[i].asked == HeaderSize - |Data(rs[..i])|
    ensures Data(rs) == f && |f| == HeaderSize
  {
    ReadRequests(rs, f);
    CompleteReadsFrame(rs, f);
  }

  /** One command cycle of cmd: the message sent, then recv calls that
      collect exactly the frame `f`. */
  predicate Exchange(evs: seq<Event>, cmd: string, f: seq<byte>)
  {
    IsFrame(f) && |evs| >= 1 && evs[0] == Send(cmd + "\n") && CompleteReads(evs[1..], f)
  }

  predicate AllRecv(rs: seq<Event>)
  {
    forall i :: 0 <= i < |rs| ==> rs[i].Recv?
  }

  lemma ExchangeAllRecv(evs: seq<Event>, cmd: string, f: seq<byte>)
    requires Exchange(evs, cmd, f)
    ensures AllRecv(evs[1..])
  {
    ReadRequests(evs[1..], f);
  }

  /** One command cycle sends exactly its message and reads exactly its frame. */
  lemma ExchangeMeaning(evs: seq<Event>, cmd: string, f: seq<byte>)
    requires Exchange(evs, cmd, f)
    ensures Sends(evs) == [cmd + "\n"] && Data(evs) == f
  {
    ExchangeAllRecv(evs, cmd, f);
    var first, rest := [evs[0]], evs[1..];
    assert evs == first + rest;
    assert first[..0] == [];
    SendsOfRecvs(rest);
    SendsAppend(first, rest);
    DataAppend(first, rest);
    CompleteReadsFrame(rest, f);
  }

  lemma {:induction false} SendsOfRecvs(rs: seq<Event>)
    requires AllRecv(rs)
    ensures Sends(rs) == []
    decreases |rs|
  {
    if rs != [] {
      SendsOfRecvs(rs[..|rs| - 1]);
    }
  }

  /** A single command cycle took the trace from `t0` to `t1` and the pending
      bytes from `s0` to `s1`: the old trace is kept, the calls added are the
      exchange of `cmd` over the frame at the head of `s0`, and exactly that
      frame was consumed. */
  predicate Ran(t0: seq<Event>, t1: seq<Event>, s0: seq<byte>, s1: seq<byte>, cmd: string)
  {
    HasFrame(s0) && s1 == s0[FrameSize(s0)..]
    && |t0| <= |t1| && t1[..|t0|] == t0 && Exchange(t1[|t0|..], cmd, FirstFrame(s0))
  }

  /** A cycle whose reads collected the whole frame at the head of `s0`
      after sending `cmd` ran as `Ran` says. */
  lemma RanOf(t0: seq<Event>, rs: seq<Event>, s0: seq<byte>, s1: seq<byte>, cmd: string)
    requires HasFrame(s0) && ValidReads(rs, FirstFrame(s0)) && Data(rs) == s0[..FrameSize(s0)]
    requires s1 == s0[FrameSize(s0)..]
    ensures Ran(t0, t0 + [Send(cmd + "\n")] + rs, s0, s1, cmd)
  {
    ConsSlices(t0, Send(cmd + "\n"), rs);
    var f := FirstFrame(s0);
    assert |Data(rs)| == HeaderSize + BodyLength(f);
    assert CompleteReads(rs, f);
  }

  /** The pieces of `parts` laid end to end. */
  function Concat<T>(parts: seq<seq<T>>): seq<T>
  {
    if parts == [] then [] else Concat(parts[..|parts| - 1]) + parts[|parts| - 1]
  }

  lemma ConcatSnoc<T>(parts: seq<seq<T>>, p: seq<T>)
    ensures Concat(parts + [p]) == Concat(parts) + p
  {
    assert (parts + [p])[..|parts|] == parts;
  }

  /** The wire messages for `cmds`: each command followed by one newline. */
  function Messages(cmds: seq<string>): (ms: seq<string>)
    ensures |ms| == |cmds|
    ensures forall i :: 0 <= i < |cmds| ==> ms[i] == cmds[i] + "\n"
  {
    if cmds == [] then [] else Messages(cmds[..|cmds| - 1]) + [cmds[|cmds| - 1] + "\n"]
  }

  /** `blocks` are the command cycles for `cmds`, one per command and in
      order, the i-th answered by `frames[i]`. */
  predicate Cycles(blocks: seq<seq<Event>>, cmds: seq<string>, frames: seq<seq<byte>>)
  {
    |blocks| == |cmds| && |frames| == |cmds|
    && forall i :: 0 <= i < |cmds| ==> Exchange(blocks[i], cmds[i], frames[i])
  }

  lemma CyclesSnoc(blocks: seq<seq<Event>>, cmds: seq<string>, frames: seq<seq<byte>>,
                   e: seq<Event>, cmd: string, f: seq<byte>)
    requires Cycles(blocks, cmds, frames) && Exchange(e, cmd, f)
    ensures Cycles(blocks + [e], cmds + [cmd], frames + [f])
  {
    var bs, cs, fs := blocks + [e], cmds + [cmd], frames + [f];
    forall i | 0 <= i < |cs|
      ensures Exchange(bs[i], cs[i], fs[i])
    {
      if i < |cmds| {
        assert bs[i] == blocks[i] && cs[i] == cmds[i] && fs[i] == frames[i];
      }
    }
  }

  lemma CyclesPrefix(blocks: seq<seq<Event>>, cmds: seq<string>, frames: seq<seq<byte>>)
    requires Cycles(blocks, cmds, frames) && cmds != []
    ensures var n := |cmds| - 1; Cycles(blocks[..n], cmds[..n], frames[..n])
  {
    var n := |cmds| - 1;
    forall i | 0 <= i < n
      ensures Exchange(blocks[..n][i], cmds[..n][i], frames[..n][i])
    {
      assert Exchange(blocks[i], cmds[i], frames[i]);
    }
  }

  /** Command cycles run one after the other send exactly the messages of
      their commands, in order, and read exactly their response frames, end
      to end: nothing of a later response is read early and nothing is sent
      twice or left out. */
  lemma {:induction false} CyclesMeaning(blocks: seq<seq<Event>>, cmds: seq<string>, frames: seq<seq<byte>>)
    requires Cycles(blocks, cmds, frames)
    ensures Sends(Concat(blocks)) == Messages(cmds)
    ensures Data(Concat(blocks)) == Concat(frames)
    decreases |cmds|
  {
    if cmds != [] {
      var n := |cmds| - 1;
      CyclesPrefix(blocks, cmds, frames);
      CyclesMeaning(blocks[..n], cmds[..n], frames[..n]);
      ExchangeMeaning(blocks[n], cmds[n], frames[n]);
      SendsAppend(Concat(blocks[..n]), blocks[n]);
      DataAppend(Concat(blocks[..n]), blocks[n]);
    }
  }

  lemma TraceSnoc(t0: seq<Event>, evs: seq<Event>, t1: seq<Event>, t2: seq<Event>)
    requires t1 == t0 + evs && |t1| <= |t2| && t2[..|t1|] == t1
    ensures t2 == t0 + (evs + t2[|t1|..])
  {
  }

  lemma InboundSnoc(s0: seq<byte>, read: seq<byte>, s1: seq<byte>, s2: seq<byte>)
    requires s0 == read + s1 && HasFrame(s1) && s2 == s1[FrameSize(s1)..]
    ensures s0 == (read + FirstFrame(s1)) + s2
  {
    assert s1 == FirstFrame(s1) + s2;
  }

  /** One more command cycle after the cycles `blocks` of `cmds`, which read
      `frames`, extends all three by that cycle and its frame. */
  lemma RanSnoc(t0: seq<Event>, t1: seq<Event>, t2: seq<Event>, s0: seq<byte>, s1: seq<byte>, s2: seq<byte>,
                blocks: seq<seq<Event>>, cmds: seq<string>, frames: seq<seq<byte>>, cmd: string)
    requires t1 == t0 + Concat(blocks) && s0 == Concat(frames) + s1 && Cycles(blocks, cmds, frames)
    requires Ran(t1, t2, s1, s2, cmd)
    ensures t2 == t0 + Concat(blocks + [t2[|t1|..]])
    ensures s0 == Concat(frames + [FirstFrame(s1)]) + s2
    ensures Cycles(blocks + [t2[|t1|..]], cmds + [cmd], frames + [FirstFrame(s1)])
  {
    var e, f := t2[|t1|..], FirstFrame(s1);
    CyclesSnoc(blocks, cmds, frames, e, cmd, f);
    ConcatSnoc(blocks, e);
    TraceSnoc(t0, Concat(blocks), t1, t2);
    ConcatSnoc(frames, f);
    InboundSnoc(s0, Concat(frames), s1, s2);
  }
}

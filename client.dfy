/** The `TectonicDB` client session: `cmd`, which sends one command line and
    collects one response frame, and the session methods built on it. */
module Client {
  import opened Wire
  import opened Transport
  import opened Commands
  import opened Sequences

  // ---------------------------------------------------------------------------
  // The `subscribed` flag

  /** What can change the `subscribed` flag: the reply to a SUBSCRIBE (its
      success flag) or an UNSUBSCRIBE, whatever its reply. */
  datatype SubscriptionEvent = SubscribeReply(success: bool) | Unsubscribed

  /** The flag after one event: a successful SUBSCRIBE sets it, a failed one
      leaves it as it was, an UNSUBSCRIBE clears it. */
  function NextSubscribed(subscribed: bool, ev: SubscriptionEvent): bool
  {
    match ev
    case SubscribeReply(success) => if success then true else subscribed
    case Unsubscribed => false
  }

  /** The flag after a whole session's events, starting from `init`. */
  function Replay(init: bool, evs: seq<SubscriptionEvent>): bool
  {
    if evs == [] then init else NextSubscribed(Replay(init, evs[..|evs| - 1]), evs[|evs| - 1])
  }

  predicate NoUnsubscribeAfter(evs: seq<SubscriptionEvent>, i: int)
  {
    forall j :: i < j < |evs| && 0 <= j ==> !evs[j].Unsubscribed?
  }

  /** The session is subscribed exactly when some SUBSCRIBE succeeded with no
      UNSUBSCRIBE after it, or it started subscribed and never unsubscribed. */
  lemma {:induction false} ReplaySubscribed(init: bool, evs: seq<SubscriptionEvent>)
    ensures Replay(init, evs) <==>
      (exists i :: 0 <= i < |evs| && evs[i] == SubscribeReply(true) && NoUnsubscribeAfter(evs, i))
      || (init && NoUnsubscribeAfter(evs, -1))
    decreases |evs|
  {
    if evs != [] {
      var pre, last := evs[..|evs| - 1], evs[|evs| - 1];
      ReplaySubscribed(init, pre);
      assert forall j :: 0 <= j < |pre| ==> pre[j] == evs[j];
      if last == SubscribeReply(true) {
        assert NoUnsubscribeAfter(evs, |evs| - 1);
      } else if last.Unsubscribed? {
        assert !NoUnsubscribeAfter(evs, -1);
        forall i | 0 <= i < |evs| && evs[i] == SubscribeReply(true)
          ensures !NoUnsubscribeAfter(evs, i)
        {
          assert evs[|evs| - 1].Unsubscribed?;
        }
      } else {
        if exists i :: 0 <= i < |evs| && evs[i] == SubscribeReply(true) && NoUnsubscribeAfter(evs, i) {
          var i :| 0 <= i < |evs| && evs[i] == SubscribeReply(true) && NoUnsubscribeAfter(evs, i);
          assert i < |pre| && pre[i] == SubscribeReply(true) && NoUnsubscribeAfter(pre, i);
        }
        if exists i :: 0 <= i < |pre| && pre[i] == SubscribeReply(true) && NoUnsubscribeAfter(pre, i) {
          var i :| 0 <= i < |pre| && pre[i] == SubscribeReply(true) && NoUnsubscribeAfter(pre, i);
          assert evs[i] == SubscribeReply(true) && NoUnsubscribeAfter(evs, i);
        }
        assert NoUnsubscribeAfter(evs, -1) <==> NoUnsubscribeAfter(pre, -1);
      }
    }
  }

  // ---------------------------------------------------------------------------
  // The session

  /** What `cmd` returns for the frame at the head of `s0`: the header's
      success flag and the body bytes the header declares. */
  predicate Answered(s0: seq<byte>, success: bool, body: seq<byte>)
  {
    HasFrame(s0) && success == DecodeHeader(s0[..HeaderSize]).success
    && body == s0[HeaderSize..FrameSize(s0)]
  }

  class TectonicDB {
    var subscribed: bool
    const sock: Socket

    /** A session over an open connection; it starts unsubscribed. */
    constructor (sock: Socket)
      ensures this.sock == sock && !subscribed
    {
      this.sock := sock;
      subscribed := false;
    }

    /** Sends `cmd` and a newline, reads the 9-byte header, then exactly the
        body bytes it declares. A response that declares an empty body
        returns no body bytes and makes no body read. */
    method Cmd(cmd: string) returns (success: bool, body: seq<byte>)
      requires HasFrame(sock.inbound)
      modifies sock
      ensures Ran(old(sock.trace), sock.trace, old(sock.inbound), sock.inbound, cmd)
      ensures Answered(old(sock.inbound), success, body)
    {
      ghost var s, t := sock.inbound, sock.trace;
      sock.SendAll(cmd + "\n");
      ghost var sent := sock.trace;
      var header, rs := RecvHeader(s, sent);
      var h := DecodeHeader(header);
      success := h.success;
      if h.length == 0 {
        body := [];
      } else {
        body, rs := RecvBody(s, header, sent, rs, h.length);
      }
      RanOf(t, rs, s, sock.inbound, cmd);
    }

    /** One recv call of the read loops, asking for what they want while the
        bytes `held` of the frame `f` at the head of `s` have arrived: it
        returns between one byte and what it asked for, the next bytes of the
        frame, and extends the cycle's reads `rs` by itself. */
    method RecvNext(ghost s: seq<byte>, ghost f: seq<byte>, ghost sent: seq<Event>, ghost rs: seq<Event>,
                    ghost held: seq<byte>, n: nat) returns (data: seq<byte>, ghost rs': seq<Event>)
      requires IsFrame(f) && |f| <= |s| && f == s[..|f|]
      requires ValidReads(rs, f) && Data(rs) == held && |held| <= |s| && held == s[..|held|]
      requires sock.inbound == s[|held|..] && sock.trace == sent + rs
      requires n == Want(|held|, BodyLength(f)) && n >= 1
      modifies sock
      ensures 1 <= |data| <= n
      ensures rs' == rs + [Event.Recv(n, data)] && ValidReads(rs', f) && Data(rs') == held + data
      ensures |held + data| <= |f| && held + data == s[..|held + data|]
      ensures sock.inbound == s[|held + data|..] && sock.trace == sent + rs'
    {
      data := sock.Recv(n);
      RecvStep(s, f, rs, held, data, n);
      SnocAssoc(sent, rs, Event.Recv(n, data));
      rs' := rs + [Event.Recv(n, data)];
    }

    /** The header loop of `cmd`: a recv for 9 bytes, then recvs for the
        missing header bytes until all 9 have arrived. `s` is what was pending
        when the command cycle began and `sent` the trace up to its send. */
    method RecvHeader(ghost s: seq<byte>, ghost sent: seq<Event>) returns (header: seq<byte>, ghost rs: seq<Event>)
      requires HasFrame(s) && sock.inbound == s && sock.trace == sent
      modifies sock
      ensures header == s[..HeaderSize] && sock.inbound == s[HeaderSize..]
      ensures sock.trace == sent + rs && ValidReads(rs, FirstFrame(s)) && Data(rs) == header
    {
      ghost var f := FirstFrame(s);
      assert s[..0] == [] && s[0..] == s && sent + [] == sent;
      header, rs := RecvNext(s, f, sent, [], [], HeaderSize);
      var currentLen := |header|;
      while currentLen < HeaderSize
        invariant currentLen == |header| <= HeaderSize
        invariant header == s[..|header|] && sock.inbound == s[|header|..]
        invariant sock.trace == sent + rs
        invariant ValidReads(rs, f) && Data(rs) == header
        decreases HeaderSize - currentLen
      {
        var more;
        more, rs := RecvNext(s, f, sent, rs, header, HeaderSize - currentLen);
        header := header + more;
        currentLen := |header|;
      }
    }

    /** The body loop of `cmd`: a recv for one byte, then recvs for what is
        missing, at most 32 bytes each, until `length` body bytes have
        arrived. `rs0` are the cycle's header reads, which follow `sent`. */
    method RecvBody(ghost s: seq<byte>, ghost header: seq<byte>, ghost sent: seq<Event>, ghost rs0: seq<Event>,
                    length: nat) returns (body: seq<byte>, ghost rs: seq<Event>)
      requires HasFrame(s) && header == s[..HeaderSize] && sock.inbound == s[HeaderSize..]
      requires sock.trace == sent + rs0 && ValidReads(rs0, FirstFrame(s)) && Data(rs0) == header
      requires length == BodyLength(s) && length > 0
      modifies sock
      ensures body == s[HeaderSize..FrameSize(s)] && sock.inbound == s[FrameSize(s)..]
      ensures sock.trace == sent + rs && ValidReads(rs, FirstFrame(s)) && Data(rs) == s[..FrameSize(s)]
    {
      ghost var f := FirstFrame(s);
      FirstFrameHeader(s);
      body, rs := RecvNext(s, f, sent, rs0, header, 1);
      ghost var held := header + body;
      var bodyLen := |body|;
      while bodyLen < length
        invariant bodyLen == |body| && 1 <= |body| <= length
        invariant held == header + body && |held| <= |s| && held == s[..|held|]
        invariant sock.inbound == s[|held|..]
        invariant sock.trace == sent + rs
        invariant ValidReads(rs, f) && Data(rs) == held
        decreases length - bodyLen
      {
        var lenToRead := length - bodyLen;
        if lenToRead > BodyChunk {
          lenToRead := BodyChunk;
        }
        WantBody(bodyLen, length);
        var more;
        more, rs := RecvNext(s, f, sent, rs, held, lenToRead);
        AppendAssoc(header, body, more);
        held := held + more;
        body := body + more;
        bodyLen := |body|;
      }
      assert |held| == FrameSize(s);
      PrefixParts(s, header, body);
    }

    // -------------------------------------------------------------------------
    // Commands with a fixed text

    method Info() returns (success: bool, body: seq<byte>)
      requires HasFrame(sock.inbound)
      modifies sock
      ensures Ran(old(sock.trace), sock.trace, old(sock.inbound), sock.inbound, "INFO")
      ensures Answered(old(sock.inbound), success, body)
    {
      success, body := Cmd("INFO");
    }

    method CountAll() returns (success: bool, body: seq<byte>)
      requires HasFrame(sock.inbound)
      modifies sock
      ensures Ran(old(sock.trace), sock.trace, old(sock.inbound), sock.inbound, "COUNT ALL")
      ensures Answered(old(sock.inbound), success, body)
    {
      success, body := Cmd("COUNT ALL");
    }

    method CountAllInMem() returns (success: bool, body: seq<byte>)
      requires HasFrame(sock.inbound)
      modifies sock
      ensures Ran(old(sock.trace), sock.trace, old(sock.inbound), sock.inbound, "COUNT ALL IN MEM")
      ensures Answered(old(sock.inbound), success, body)
    {
      success, body := Cmd("COUNT ALL IN MEM");
    }

    method Ping() returns (success: bool, body: seq<byte>)
      requires HasFrame(sock.inbound)
      modifies sock
      ensures Ran(old(sock.trace), sock.trace, old(sock.inbound), sock.inbound, "PING")
      ensures Answered(old(sock.inbound), success, body)
    {
      success, body := Cmd("PING");
    }

    method Help() returns (success: bool, body: seq<byte>)
      requires HasFrame(sock.inbound)
      modifies sock
      ensures Ran(old(sock.trace), sock.trace, old(sock.inbound), sock.inbound, "HELP")
      ensures Answered(old(sock.inbound), success, body)
    {
      success, body := Cmd("HELP");
    }

    method Clear() returns (success: bool, body: seq<byte>)
      requires HasFrame(sock.inbound)
      modifies sock
      ensures Ran(old(sock.trace), sock.trace, old(sock.inbound), sock.inbound, "CLEAR")
      ensures Answered(old(sock.inbound), success, body)
    {
      success, body := Cmd("CLEAR");
    }

    method ClearAll() returns (success: bool, body: seq<byte>)
      requires HasFrame(sock.inbound)
      modifies sock
      ensures Ran(old(sock.trace), sock.trace, old(sock.inbound), sock.inbound, "CLEAR ALL")
      ensures Answered(old(sock.inbound), success, body)
    {
      success, body := Cmd("CLEAR ALL");
    }

    method Flush() returns (success: bool, body: seq<byte>)
      requires HasFrame(sock.inbound)
      modifies sock
      ensures Ran(old(sock.trace), sock.trace, old(sock.inbound), sock.inbound, "FLUSH")
      ensures Answered(old(sock.inbound), success, body)
    {
      success, body := Cmd("FLUSH");
    }

    method FlushAll() returns (success: bool, body: seq<byte>)
      requires HasFrame(sock.inbound)
      modifies sock
      ensures Ran(old(sock.trace), sock.trace, old(sock.inbound), sock.inbound, "FLUSH ALL")
      ensures Answered(old(sock.inbound), success, body)
    {
      success, body := Cmd("FLUSH ALL");
    }

    /** An empty command: the only thing sent is the newline. */
    method Poll() returns (success: bool, body: seq<byte>)
      requires HasFrame(sock.inbound)
      modifies sock
      ensures Ran(old(sock.trace), sock.trace, old(sock.inbound), sock.inbound, "")
      ensures Answered(old(sock.inbound), success, body)
    {
      success, body := Cmd("");
    }

    // -------------------------------------------------------------------------
    // Commands with arguments

    method Create(dbname: string) returns (success: bool, body: seq<byte>)
      requires HasFrame(sock.inbound)
      modifies sock
      ensures Ran(old(sock.trace), sock.trace, old(sock.inbound), sock.inbound, CreateText(dbname))
      ensures Answered(old(sock.inbound), success, body)
    {
      success, body := Cmd(CreateText(dbname));
    }

    method Use(dbname: string) returns (success: bool, body: seq<byte>)
      requires HasFrame(sock.inbound)
      modifies sock
      ensures Ran(old(sock.trace), sock.trace, old(sock.inbound), sock.inbound, UseText(dbname))
      ensures Answered(old(sock.inbound), success, body)
    {
      success, body := Cmd(UseText(dbname));
    }

    method Insert(u: Update, dbname: string) returns (success: bool, body: seq<byte>)
      requires HasFrame(sock.inbound)
      modifies sock
      ensures Ran(old(sock.trace), sock.trace, old(sock.inbound), sock.inbound, InsertText(u, dbname))
      ensures Answered(old(sock.inbound), success, body)
    {
      success, body := Cmd(InsertText(u, dbname));
    }

    method Add(u: Update) returns (success: bool, body: seq<byte>)
      requires HasFrame(sock.inbound)
      modifies sock
      ensures Ran(old(sock.trace), sock.trace, old(sock.inbound), sock.inbound, AddText(u))
      ensures Answered(old(sock.inbound), success, body)
    {
      success, body := Cmd(AddText(u));
    }

    /** GET <n> AS JSON: no value when the response reports failure, the
        response body otherwise (which the client then parses as JSON). */
    method Get(n: string) returns (r: Option<seq<byte>>)
      requires HasFrame(sock.inbound)
      modifies sock
      ensures Ran(old(sock.trace), sock.trace, old(sock.inbound), sock.inbound, GetText(n))
      ensures r.None? <==> !DecodeHeader(old(sock.inbound)[..HeaderSize]).success
      ensures r.Some? ==> r.value == old(sock.inbound)[HeaderSize..FrameSize(old(sock.inbound))]
    {
      var success, body := Cmd(GetText(n));
      if success {
        r := Some(body);
      } else {
        r := None;
      }
    }

    // -------------------------------------------------------------------------
    // Subscriptions

    /** SUBSCRIBE <dbname>: the flag is set when the response reports success
        and kept otherwise; the response is returned as it came. */
    method Subscribe(dbname: string) returns (success: bool, body: seq<byte>)
      requires HasFrame(sock.inbound)
      modifies this, sock
      ensures Ran(old(sock.trace), sock.trace, old(sock.inbound), sock.inbound, SubscribeText(dbname))
      ensures Answered(old(sock.inbound), success, body)
      ensures subscribed == NextSubscribed(old(subscribed), SubscribeReply(success))
    {
      success, body := Cmd(SubscribeText(dbname));
      if success {
        subscribed := true;
      }
    }

    /** UNSUBSCRIBE: the flag is cleared whatever the response says. */
    method Unsubscribe()
      requires HasFrame(sock.inbound)
      modifies this, sock
      ensures Ran(old(sock.trace), sock.trace, old(sock.inbound), sock.inbound, "UNSUBSCRIBE")
      ensures subscribed == NextSubscribed(old(subscribed), Unsubscribed)
    {
      var _, _ := Cmd("UNSUBSCRIBE");
      subscribed := false;
    }

    // -------------------------------------------------------------------------
    // Commands in sequence

    /** One more command cycle after the cycles `blocks` of `cmds`, which were
        answered by `frames`, run since the trace was `t0` and the pending
        bytes were `s0`. */
    method CmdInSequence(cmd: string, ghost t0: seq<Event>, ghost s0: seq<byte>, ghost blocks: seq<seq<Event>>,
                         ghost cmds: seq<string>, ghost frames: seq<seq<byte>>, ghost pending: nat)
      returns (success: bool, body: seq<byte>, ghost blocks': seq<seq<Event>>, ghost frames': seq<seq<byte>>)
      requires pending >= 1 && HasFrames(sock.inbound, pending)
      requires sock.trace == t0 + Concat(blocks) && s0 == Concat(frames) + sock.inbound
      requires Cycles(blocks, cmds, frames)
      modifies sock
      ensures sock.trace == t0 + Concat(blocks') && s0 == Concat(frames') + sock.inbound
      ensures Cycles(blocks', cmds + [cmd], frames')
      ensures frames' == frames + [FirstFrame(old(sock.inbound))]
      ensures sock.inbound == old(sock.inbound)[FrameSize(old(sock.inbound))..]
      ensures HasFrames(sock.inbound, pending - 1)
      ensures Answered(old(sock.inbound), success, body)
      ensures body == frames'[|frames|][HeaderSize..]
    {
      ghost var t1, s1 := sock.trace, sock.inbound;
      HasFramesNext(s1, pending);
      FirstFrameHeader(s1);
      success, body := Cmd(cmd);
      RanSnoc(t0, t1, sock.trace, s0, s1, sock.inbound, blocks, cmds, frames, cmd);
      blocks' := blocks + [sock.trace[|t1|..]];
      frames' := frames + [FirstFrame(s1)];
    }

    /** BULKADD, then one row per update in input order, then DDAKLUB, each
        response read in full before the next command is sent; the responses
        are dropped. `blocks` are the command cycles and `frames` the
        responses, one per command. */
    method BulkAdd(updates: seq<Update>) returns (ghost blocks: seq<seq<Event>>, ghost frames: seq<seq<byte>>)
      requires HasFrames(sock.inbound, |updates| + 2)
      modifies sock
      ensures Cycles(blocks, BulkAddCommands(updates), frames)
      ensures sock.trace == old(sock.trace) + Concat(blocks)
      ensures old(sock.inbound) == Concat(frames) + sock.inbound
      ensures Sends(Concat(blocks)) == Messages(BulkAddCommands(updates))
      ensures Data(Concat(blocks)) == Concat(frames)
    {
      ghost var t0, s0 := sock.trace, sock.inbound;
      var _, _, b, f := CmdInSequence("BULKADD", t0, s0, [], [], [], |updates| + 2);
      blocks, frames := b, f;
      assert updates[..0] == [];
      assert ["BULKADD"] + RowCommands(updates[..0]) == [] + ["BULKADD"];
      ghost var pending := |updates| + 2 - 1;
      var i := 0;
      while i < |updates|
        invariant 0 <= i <= |updates|
        invariant sock.trace == t0 + Concat(blocks) && s0 == Concat(frames) + sock.inbound
        invariant Cycles(blocks, ["BULKADD"] + RowCommands(updates[..i]), frames)
        invariant pending == |updates| - i + 1 && HasFrames(sock.inbound, pending)
      {
        ghost var done := RowCommands(updates[..i]);
        var _, _, b, f := CmdInSequence(RowText(updates[i]), t0, s0, blocks, ["BULKADD"] + done, frames, pending);
        blocks, frames := b, f;
        RowCommandsSnoc(updates, i);
        SnocAssoc(["BULKADD"], done, RowText(updates[i]));
        pending := pending - 1;
        i := i + 1;
      }
      assert updates[..|updates|] == updates;
      var _, _, b', f' := CmdInSequence("DDAKLUB", t0, s0, blocks, ["BULKADD"] + RowCommands(updates), frames, pending);
      blocks, frames := b', f';
      CyclesMeaning(blocks, BulkAddCommands(updates), frames);
    }

    // -------------------------------------------------------------------------
    // Range queries

    /** GET ALL FROM <start> TO <finish> AS CSV, returning the response body.
        The USE of `dbname` that precedes it is never awaited, so it sends
        nothing: `dbname` has no effect on what goes out. */
    method Range(dbname: string, start: string, finish: string) returns (data: seq<byte>)
      requires HasFrame(sock.inbound)
      modifies sock
      ensures Ran(old(sock.trace), sock.trace, old(sock.inbound), sock.inbound, RangeText(start, finish))
      ensures data == old(sock.inbound)[HeaderSize..FrameSize(old(sock.inbound))]
    {
      var _, body := Cmd(RangeText(start, finish));
      data := body;
    }

    /** The range query as evidently intended: USE <dbname>, then the GET,
        returning the body of the second response. */
    method RangeIn(dbname: string, start: string, finish: string)
      returns (data: seq<byte>, ghost blocks: seq<seq<Event>>, ghost frames: seq<seq<byte>>)
      requires HasFrames(sock.inbound, 2)
      modifies sock
      ensures Cycles(blocks, [UseText(dbname), RangeText(start, finish)], frames)
      ensures sock.trace == old(sock.trace) + Concat(blocks)
      ensures old(sock.inbound) == Concat(frames) + sock.inbound
      ensures Sends(Concat(blocks)) == Messages([UseText(dbname), RangeText(start, finish)])
      ensures data == frames[1][HeaderSize..]
    {
      ghost var t0, s0 := sock.trace, sock.inbound;
      var cmds := [UseText(dbname), RangeText(start, finish)];
      PairSlices(cmds[0], cmds[1]);
      var _, _, b, f := CmdInSequence(cmds[0], t0, s0, [], [], [], 2);
      var _, body, b', f' := CmdInSequence(cmds[1], t0, s0, b, cmds[..1], f, 1);
      blocks, frames := b', f';
      data := body;
      CyclesMeaning(blocks, cmds, frames);
    }
  }

  // ---------------------------------------------------------------------------
  // What the session sends

  /** `poll` sends a bare newline and nothing else. */
  lemma PollSendsNewline(t0: seq<Event>, t1: seq<Event>, s0: seq<byte>, s1: seq<byte>)
    requires Ran(t0, t1, s0, s1, "")
    ensures Sends(t1[|t0|..]) == ["\n"]
  {
    ExchangeMeaning(t1[|t0|..], "", FirstFrame(s0));
    assert "" + "\n" == "\n";
  }

  /** As written, `range` sends the GET line alone, whatever `dbname` is: no
      USE command of any name goes out before it. */
  lemma RangeWithoutUse(t0: seq<Event>, t1: seq<Event>, s0: seq<byte>, s1: seq<byte>, start: string, finish: string)
    requires Ran(t0, t1, s0, s1, RangeText(start, finish))
    ensures Sends(t1[|t0|..]) == [RangeText(start, finish) + "\n"]
    ensures forall dbname :: UseText(dbname) + "\n" !in Sends(t1[|t0|..])
  {
    ExchangeMeaning(t1[|t0|..], RangeText(start, finish), FirstFrame(s0));
    forall dbname ensures UseText(dbname) + "\n" != RangeText(start, finish) + "\n" {
      assert (UseText(dbname) + "\n")[0] == 'U';
      assert (RangeText(start, finish) + "\n")[0] == 'G';
    }
  }
}

/**
 The USB command machine of the Avision backend.  Every transfer is logged; the
 transport may answer anything it likes, except that a successful source write
 makes progress.
 */
module AvisionUsb {
  import opened SaneBytes

  datatype Event =
    | Cmd(sent: seq<Byte>, ok: bool)              // what a command write transferred, and its status
    | Src(sent: seq<Byte>)                        // what a successful payload write transferred
    | Failed                                      // a payload write that failed
    | Dst(got: seq<Byte>)                         // what a payload read delivered
    | StatusByte(pipe: StatusMode, transport: Status, got: seq<Byte>)
    | Sense(written: Status)                      // the request-sense command, and the status of its write
    | SenseData(got: seq<Byte>)
    | Handled(verdict: Status)                    // what the sense handler made of it

  datatype StatusMode = Untested | Bulk | Interrupt

  const MIN_COMMAND := 10
  const COMMAND_TRIES := 3

  /** Short commands are filled up with zeroes. */
  function Padded(cmd: seq<Byte>): (r: seq<Byte>)
    ensures MIN_COMMAND <= |r| && cmd <= r
    ensures |cmd| < MIN_COMMAND ==> |r| == MIN_COMMAND
    ensures |cmd| >= MIN_COMMAND ==> r == cmd
    ensures forall k :: |cmd| <= k < |r| ==> r[k] == 0
  {
    if |cmd| < MIN_COMMAND then cmd + seq(MIN_COMMAND - |cmd|, _ => 0) else cmd
  }

  function Commands(log: seq<Event>): nat {
    if log == [] then 0 else Commands(log[..|log| - 1]) + if log[|log| - 1].Cmd? then 1 else 0
  }

  function SrcBytes(log: seq<Event>): seq<Byte> {
    if log == [] then []
    else SrcBytes(log[..|log| - 1]) + if log[|log| - 1].Src? then log[|log| - 1].sent else []
  }

  function DstBytes(log: seq<Event>): seq<Byte> {
    if log == [] then []
    else DstBytes(log[..|log| - 1]) + if log[|log| - 1].Dst? then log[|log| - 1].got else []
  }

  lemma Snoc(log: seq<Event>, e: Event)
    ensures Commands(log + [e]) == Commands(log) + if e.Cmd? then 1 else 0
    ensures SrcBytes(log + [e]) == SrcBytes(log) + if e.Src? then e.sent else []
    ensures DstBytes(log + [e]) == DstBytes(log) + if e.Dst? then e.got else []
  {
    assert (log + [e])[..|log|] == log;
  }

  predicate NoCmd(events: seq<Event>) { forall k :: 0 <= k < |events| ==> !events[k].Cmd? }

  lemma {:induction false} NoCommands(log: seq<Event>, more: seq<Event>)
    requires NoCmd(more)
    ensures Commands(log + more) == Commands(log)
    decreases |more|
  {
    if more == [] {
      assert log + more == log;
    } else {
      var m := |more| - 1;
      NoCommands(log, more[..m]);
      Snoc(log + more[..m], more[m]);
      assert log + more == log + more[..m] + [more[m]];
    }
  }

  /** What a device status byte means: 0 ok, 2 request sense, 8 busy. */
  function Decode(e: Event): Status
    requires e.StatusByte?
  {
    if e.transport != Good then e.transport
    else if e.got == [] then IoError
    else if e.got[0] == 0 then Good
    else if e.got[0] == 2 then Inval
    else if e.got[0] == 8 then DeviceBusy
    else Inval
  }

  /** A status was read over the bulk or the interrupt pipe, the second only when the first was silent. */
  ghost predicate StatusRead(events: seq<Event>, result: Status) {
    && 1 <= |events| <= 2
    && (forall k :: 0 <= k < |events| ==> events[k].StatusByte? && |events[k].got| <= 1)
    && (|events| == 2 ==> events[0].got == [])
    && result == Decode(events[|events| - 1])
  }

  /** Which answers stand for which status. */
  lemma StatusMeans(events: seq<Event>, result: Status)
    requires StatusRead(events, result)
    ensures var e := events[|events| - 1];
      && (result == Good <==> e.transport == Good && e.got == [0])
      && (e.transport != Good ==> result == e.transport)
      && (e.transport == Good ==>
           && (result == IoError <==> e.got == [])
           && (result == DeviceBusy <==> e.got == [8])
           && (result == Inval <==> e.got != [] && e.got[0] != 0 && e.got[0] != 8))
  {
    var e := events[|events| - 1];
    assert e.got != [] ==> e.got == [e.got[0]];
  }

  method ReadStatusByte(pipe: StatusMode) returns (e: Event)
    ensures e.StatusByte? && |e.got| <= 1 && e.pipe == pipe
  {
    var transport: Status := *;
    var b: Byte := *;
    var arrived: bool := *;
    e := StatusByte(pipe, transport, if arrived then [b] else []);
  }

  /** Bulk status first, then the interrupt pipe, unless the device is known to use only one of them. */
  method UsbStatus(mode0: StatusMode) returns (status: Status, mode: StatusMode, events: seq<Event>)
    ensures StatusRead(events, status)
    ensures mode0 != Untested ==> mode == mode0 && |events| == 1 && events[0].pipe == mode0
    ensures mode0 == Untested ==>
      && events[0].pipe == Bulk && (|events| == 2 <==> events[0].got == []) && (|events| == 2 ==> events[1].pipe == Interrupt)
      && mode == (var e := events[|events| - 1]; if e.got == [] then Untested else e.pipe)
  {
    mode, events := mode0, [];
    if mode == Bulk || mode == Untested {
      var e := ReadStatusByte(Bulk);
      events := [e];
      if e.got != [] {
        mode := Bulk;
      }
    }
    if (events == [] || events[0].got == []) && (mode == Interrupt || mode == Untested) {
      var e := ReadStatusByte(Interrupt);
      events := events + [e];
      if e.got != [] {
        mode := Interrupt;
      }
    }
    status := Decode(events[|events| - 1]);
  }

  /** Every read brought something, and a single byte only where a single byte was missing. */
  ghost predicate NoStray(answer: seq<Event>) {
    forall k :: 0 <= k < |answer| ==> answer[k].Dst? && answer[k].got != [] && (|answer[k].got| == 1 ==> k == |answer| - 1)
  }

  /** Everything of the command was written, every byte of src, and dst came back, in that order. */
  ghost predicate Transferred(events: seq<Event>, i: nat, cmd: seq<Byte>, src: seq<Byte>, dst: seq<Byte>) {
    && 1 <= i <= |events| && events[0] == Cmd(cmd, true)
    && (forall k :: 1 <= k < i ==> events[k].Src?) && SrcBytes(events[1..i]) == src
    && NoStray(events[i..]) && DstBytes(events[i..]) == dst
  }

  /** The device's own word that the command went well: its status, or the sense handler after a sense request. */
  ghost predicate Confirmed(events: seq<Event>, s: nat) {
    || StatusRead(events, Good)
    || (&& s + 3 < |events| && StatusRead(events[..s], Inval)
        && events[s] == Sense(Good) && events[s + 1].SenseData?
        && (StatusRead(events[s + 2..|events| - 1], Good) || StatusRead(events[s + 2..|events| - 1], Inval))
        && events[|events| - 1] == Handled(Good))
  }

  ghost predicate GoodAttempt(events: seq<Event>, i: nat, j: nat, s: nat, cmd: seq<Byte>, src: seq<Byte>, dst: seq<Byte>) {
    j <= |events| && Transferred(events[..j], i, cmd, src, dst) && Confirmed(events[j..], s)
  }

  // ---------------------------------------------------------------- what becomes of an attempt

  /** The last word: the device's status 0, or the sense handler's Good. */
  predicate SaysGood(e: Event) { e == Handled(Good) || (e.StatusByte? && e.transport == Good && e.got == [0]) }

  /** The command went out whole, and the last word was good. */
  predicate Succeeded(cmd: seq<Byte>, events: seq<Event>) {
    events != [] && events[0] == Cmd(cmd, true) && SaysGood(events[|events| - 1])
  }

  predicate IsPayload(e: Event) { e.Src? || e == Failed || e.Dst? }

  /** The payload broke off: a write failed, nothing came, or a single byte where more was expected. */
  ghost predicate BrokenOff(payload: seq<Event>, size: nat) {
    && payload != [] && (forall e :: e in payload ==> IsPayload(e))
    && var e := payload[|payload| - 1];
       e == Failed || (e.Dst? && (e.got == [] || (|e.got| == 1 && |DstBytes(payload)| < size)))
  }

  /** The command is sent again after this. */
  ghost predicate Repeatable(cmd: seq<Byte>, size: nat, events: seq<Event>) {
    && events != [] && events[0].Cmd?
    && if !events[0].ok then StatusRead(events[1..], Good)          // the write failed, and the status was cleared
       else if events[0].sent != cmd then |events| == 1             // the write was short
       else
         || BrokenOff(events[1..], size)
         || (Unclear(events[|events| - 1]) && forall e :: e in events ==> !e.Sense?)
  }

  /** A status that is neither good nor asks for the sense data. */
  predicate Unclear(e: Event) { e.StatusByte? && Decode(e) != Good && Decode(e) != Inval }

  /** The command failed for good, with this status: the pipe stayed blocked, or sense data was asked for. */
  ghost predicate Refused(cmd: seq<Byte>, events: seq<Event>, status: Status) {
    && events != [] && events[0].Cmd? && status != Good
    && if !events[0].ok then status == IoError && exists st :: st != Good && StatusRead(events[1..], st)
       else events[0].sent == cmd && (exists e :: e in events && e.Sense?) && EndsWith(events[|events| - 1], status)
  }

  /** The status that an event reports. */
  function LastStatus(e: Event): Status {
    match e
    case Sense(written) => written
    case StatusByte(_, _, _) => Decode(e)
    case Handled(verdict) => verdict
    case _ => Good
  }

  /** Sense data is judged by the handler, unless it could not be asked for or its status was unclear. */
  predicate EndsWith(e: Event, status: Status) {
    status == LastStatus(e) && (e.StatusByte? ==> Unclear(e))
  }

  lemma Exclusive(cmd: seq<Byte>, size: nat, events: seq<Event>, status: Status)
    ensures Succeeded(cmd, events) ==> !Repeatable(cmd, size, events) && !Refused(cmd, events, status)
    ensures Repeatable(cmd, size, events) ==> !Refused(cmd, events, status)
  {
    if events != [] && events[0] == Cmd(cmd, true) && |events| > 1 {
      var rest := events[1..];
      assert events == [events[0]] + rest && rest[|rest| - 1] == events[|events| - 1];
      if BrokenOff(rest, size) {
        forall e | e in events
          ensures !e.Sense?
        {
          assert e == events[0] || e in rest;
        }
      }
    }
  }

  /** Everything transferred and confirmed: then the attempt has succeeded. */
  lemma GoodIsSuccess(events: seq<Event>, i: nat, j: nat, s: nat, cmd: seq<Byte>, src: seq<Byte>, dst: seq<Byte>)
    requires GoodAttempt(events, i, j, s, cmd, src, dst)
    ensures Succeeded(cmd, events)
  {
    assert events[..j][0] == events[0];
    var tail := events[j..];
    assert tail != [] && tail[|tail| - 1] == events[|events| - 1];
    if StatusRead(tail, Good) {
      StatusMeans(tail, Good);
    }
  }

  // ---------------------------------------------------------------- payload

  /** Only successful writes, and they sent this. */
  ghost predicate SentAll(events: seq<Event>, sent: seq<Byte>) {
    (forall k :: 0 <= k < |events| ==> events[k].Src?) && SrcBytes(events) == sent
  }

  /** Writes, the last of which failed. */
  ghost predicate SendBroken(events: seq<Event>) {
    && events != [] && events[|events| - 1] == Failed
    && forall k :: 0 <= k < |events| - 1 ==> events[k].Src?
  }

  lemma SentMore(events: seq<Event>, src: seq<Byte>, i: nat, j: nat)
    requires i <= j <= |src| && SentAll(events, src[..i])
    ensures SentAll(events + [Src(src[i..j])], src[..j])
  {
    Snoc(events, Src(src[i..j]));
    assert src[..j] == src[..i] + src[i..j];
  }

  lemma SendFails(events: seq<Event>, sent: seq<Byte>)
    requires SentAll(events, sent)
    ensures SendBroken(events + [Failed])
  {
  }

  /** Send the payload; Good means that all of it went out. */
  method SendSource(src: seq<Byte>) returns (ok: bool, events: seq<Event>)
    ensures if ok then SentAll(events, src) else SendBroken(events)
  {
    ok, events := true, [];
    var i := 0;
    while i < |src| && ok
      invariant 0 <= i <= |src|
      invariant if ok then SentAll(events, src[..i]) else SendBroken(events)
      decreases |src| - i, ok
    {
      ok := *;
      if ok {
        var count :| 1 <= count <= |src| - i;
        SentMore(events, src, i, i + count);
        events := events + [Src(src[i..i + count])];
        i := i + count;
      } else {
        SendFails(events, src[..i]);
        events := events + [Failed];
      }
    }
    assert src[..|src|] == src;
  }

  /** One more read: it adds what it brought, or breaks the payload off. */
  lemma AnswerMore(events: seq<Event>, dst: seq<Byte>, got: seq<Byte>, size: nat)
    requires NoStray(events) && DstBytes(events) == dst && |dst| + |got| <= size && |dst| < size
    requires events != [] ==> |events[|events| - 1].got| > 1
    ensures var more := events + [Dst(got)];
      && DstBytes(more) == dst + got && (forall k :: 0 <= k < |more| ==> more[k].Dst?)
      && (got == [] || (|got| == 1 && size - |dst| > 1) ==> BrokenOff(more, size))
      && (got != [] ==> NoStray(more))
  {
    Snoc(events, Dst(got));
  }

  /** Read the payload; anything that looks like a stray status byte, or nothing, fails. */
  method ReadDestination(size: nat) returns (ok: bool, dst: seq<Byte>, events: seq<Event>)
    ensures forall k :: 0 <= k < |events| ==> events[k].Dst?
    ensures ok ==> |dst| == size && DstBytes(events) == dst && NoStray(events)
    ensures !ok ==> BrokenOff(events, size)
  {
    ok, dst, events := true, [], [];
    while |dst| < size && ok
      invariant |dst| <= size && (ok ==> NoStray(events))
      invariant ok && |dst| < size && events != [] ==> |events[|events| - 1].got| > 1
      invariant forall k :: 0 <= k < |events| ==> events[k].Dst?
      invariant if ok then DstBytes(events) == dst else BrokenOff(events, size)
      decreases size - |dst|, ok
    {
      var got: seq<Byte> :| |got| <= size - |dst|;
      AnswerMore(events, dst, got, size);
      events := events + [Dst(got)];
      if |got| == 1 && size - |dst| > 1 {
        ok := false;
      } else if |got| > 0 {
        dst := dst + got;
      } else {
        ok := false;
      }
    }
  }

  /** Payload out and payload in, after the command itself. */
  method TransferPayload(src: seq<Byte>, size: nat)
    returns (ok: bool, dst: seq<Byte>, events: seq<Event>, ghost i: nat)
    ensures forall e :: e in events ==> IsPayload(e)
    ensures ok ==>
      && |dst| == size && i <= |events|
      && (forall k :: 0 <= k < i ==> events[k].Src?) && SrcBytes(events[..i]) == src
      && NoStray(events[i..]) && DstBytes(events[i..]) == dst
    ensures !ok ==> BrokenOff(events, size)
  {
    dst := [];
    ok, events := SendSource(src);
    i := |events|;
    var sent := events;
    assert forall e :: e in sent ==> e.Src? || e == Failed;
    if ok && size > 0 {
      var answer;
      ok, dst, answer := ReadDestination(size);
      events := events + answer;
      assert events[i..] == answer;
      if !ok {
        DstBehind(sent, answer);
      }
    }
    assert events[..i] == sent;
  }

  lemma {:induction false} DstBehind(sent: seq<Event>, answer: seq<Event>)
    requires forall e :: e in sent ==> !e.Dst?
    ensures DstBytes(sent + answer) == DstBytes(answer)
    decreases |sent| + |answer|
  {
    if answer != [] {
      var m := |answer| - 1;
      DstBehind(sent, answer[..m]);
      Snoc(sent + answer[..m], answer[m]);
      assert sent + answer == sent + answer[..m] + [answer[m]];
    } else if sent != [] {
      var m := |sent| - 1;
      DstBehind(sent[..m], []);
      assert sent[..m] + [] == sent[..m] && sent + [] == sent;
    }
  }

  // ---------------------------------------------------------------- status and sense data

  /** Ask for sense data and let the handler judge it. */
  method RequestSense(mode0: StatusMode) returns (status: Status, mode: StatusMode, events: seq<Event>)
    ensures NoCmd(events)
    ensures events != [] && events[0].Sense?
    ensures EndsWith(events[|events| - 1], status)
    ensures status == Good <==> SaysGood(events[|events| - 1])
    ensures status == Good ==>
      && 4 <= |events| && events[0] == Sense(Good) && events[1].SenseData?
      && (StatusRead(events[2..|events| - 1], Good) || StatusRead(events[2..|events| - 1], Inval))
      && events[|events| - 1] == Handled(Good)
    ensures mode0 != Untested ==> mode == mode0
  {
    mode := mode0;
    status := *;
    events := [Sense(status)];
    if status == Good {
      var data: seq<Byte> := *;
      var read;
      status, mode, read := UsbStatus(mode);
      StatusMeans(read, status);
      events := events + [SenseData(data)] + read;
      SenseEvents(Sense(Good), SenseData(data), read);
      if status == Good || status == Inval {
        status := *;
        Judged(Sense(Good), SenseData(data), read, Handled(status));
        events := events + [Handled(status)];
      }
    }
  }

  lemma SenseEvents(a: Event, b: Event, read: seq<Event>)
    requires !a.Cmd? && !b.Cmd? && read != [] && forall k :: 0 <= k < |read| ==> read[k].StatusByte?
    ensures var events := [a] + [b] + read;
      && events[0] == a && events[1] == b && events[|events| - 1] == read[|read| - 1]
      && NoCmd(events)
  {
  }

  lemma Judged(a: Event, b: Event, read: seq<Event>, c: Event)
    requires !a.Cmd? && !b.Cmd? && !c.Cmd? && read != [] && forall k :: 0 <= k < |read| ==> read[k].StatusByte?
    ensures var events := [a] + [b] + read + [c];
      && events[0] == a && events[1] == b && events[|events| - 1] == c && events[2..|events| - 1] == read
      && NoCmd(events)
  {
    SenseEvents(a, b, read);
    assert ([a] + [b] + read + [c])[2..|read| + 2] == read;
  }

  datatype Outcome = Retry | Return(status: Status)

  /** Read the device status and, when it asks for it, the sense data. */
  method Confirm(mode0: StatusMode) returns (outcome: Outcome, mode: StatusMode, events: seq<Event>, ghost s: nat)
    ensures NoCmd(events)
    ensures events != []
    ensures outcome == Return(Good) ==> Confirmed(events, s) && SaysGood(events[|events| - 1])
    ensures outcome == Retry ==> Unclear(events[|events| - 1]) && forall e :: e in events ==> !e.Sense?
    ensures outcome.Return? && outcome.status != Good ==>
      (exists e :: e in events && e.Sense?) && EndsWith(events[|events| - 1], outcome.status)
    ensures mode0 != Untested ==> mode == mode0
  {
    var status;
    status, mode, events := UsbStatus(mode0);
    StatusMeans(events, status);
    s := |events|;
    if status != Good && status != Inval {
      outcome := Retry;
    } else {
      if status == Inval {
        var sense, read := [], events;
        status, mode, sense := RequestSense(mode);
        events := events + sense;
        assert events[|read|] == sense[0] && events[|events| - 1] == sense[|sense| - 1];
        if status == Good {
          ConfirmedBySense(read, sense);
        }
      }
      outcome := Return(status);
    }
  }

  lemma ConfirmedBySense(read: seq<Event>, sense: seq<Event>)
    requires StatusRead(read, Inval)
    requires 4 <= |sense| && sense[0] == Sense(Good) && sense[1].SenseData?
    requires StatusRead(sense[2..|sense| - 1], Good) || StatusRead(sense[2..|sense| - 1], Inval)
    requires sense[|sense| - 1] == Handled(Good)
    ensures Confirmed(read + sense, |read|)
  {
    var e, s := read + sense, |read|;
    assert e[..s] == read && e[s..] == sense;
    SliceBehind(e, s, 2, |sense| - 1);
  }

  lemma SliceBehind(e: seq<Event>, s: nat, i: nat, j: nat)
    requires i <= j && s + j <= |e|
    ensures e[s..][i..j] == e[s + i..s + j]
  {
    var l, r := e[s..][i..j], e[s + i..s + j];
    forall k | 0 <= k < j - i
      ensures l[k] == r[k]
    {
      assert l[k] == e[s..][i + k];
      assert r[k] == e[s + i + k];
    }
  }

  // ---------------------------------------------------------------- one attempt

  lemma TransferredAll(cmd: seq<Byte>, payload: seq<Event>, i: nat, src: seq<Byte>, dst: seq<Byte>)
    requires i <= |payload|
    requires (forall k :: 0 <= k < i ==> payload[k].Src?) && SrcBytes(payload[..i]) == src
    requires NoStray(payload[i..]) && DstBytes(payload[i..]) == dst
    ensures Transferred([Cmd(cmd, true)] + payload, i + 1, cmd, src, dst)
  {
    var e := [Cmd(cmd, true)] + payload;
    assert e[1..i + 1] == payload[..i];
    assert e[i + 1..] == payload[i..];
  }

  /** What the events of an attempt say about its outcome, and nothing else does. */
  ghost predicate Decides(cmd: seq<Byte>, size: nat, events: seq<Event>, outcome: Outcome) {
    match outcome
    case Retry => Repeatable(cmd, size, events)
    case Return(status) => if status == Good then Succeeded(cmd, events) else Refused(cmd, events, status)
  }

  lemma DecidesExactly(cmd: seq<Byte>, size: nat, events: seq<Event>, outcome: Outcome)
    requires Decides(cmd, size, events, outcome)
    ensures outcome == Retry <==> Repeatable(cmd, size, events)
    ensures outcome == Return(Good) <==> Succeeded(cmd, events)
  {
    Exclusive(cmd, size, events, if outcome.Return? then outcome.status else Good);
  }

  /** One attempt: command, payload out, payload in, status. */
  method Attempt(cmd: seq<Byte>, src: seq<Byte>, size: nat, mode0: StatusMode)
    returns (outcome: Outcome, dst: seq<Byte>, mode: StatusMode, events: seq<Event>, ghost i: nat, ghost j: nat, ghost s: nat)
    ensures events != [] && events[0].Cmd?
    ensures forall k :: 1 <= k < |events| ==> !events[k].Cmd?
    ensures outcome == Return(Good) ==> |dst| == size && GoodAttempt(events, i, j, s, cmd, src, dst)
    ensures outcome == Return(Good) <==> Succeeded(cmd, events)
    ensures outcome == Retry <==> Repeatable(cmd, size, events)
    ensures outcome.Return? && outcome.status != Good ==> Refused(cmd, events, outcome.status)
    ensures mode0 != Untested ==> mode == mode0
  {
    dst, mode, outcome, i, j, s := [], mode0, Retry, 0, 0, 0;
    var written: bool := *;
    var count :| 0 <= count <= |cmd|;
    events := [Cmd(cmd[..count], written)];
    if !written {
      var status, more;
      status, mode, more := UsbStatus(mode);
      events := events + more;
      assert events[1..] == more;
      outcome := if status != Good then Return(IoError) else Retry;
    } else if count == |cmd| {
      assert cmd[..count] == cmd;
      outcome, dst, mode, events, i, j, s := Execute(cmd, src, size, mode);
    }
    DecidesExactly(cmd, size, events, outcome);
  }

  /** After the whole command was sent: payload out, payload in, status. */
  method Execute(cmd: seq<Byte>, src: seq<Byte>, size: nat, mode0: StatusMode)
    returns (outcome: Outcome, dst: seq<Byte>, mode: StatusMode, events: seq<Event>, ghost i: nat, ghost j: nat, ghost s: nat)
    ensures events != [] && events[0] == Cmd(cmd, true)
    ensures forall k :: 1 <= k < |events| ==> !events[k].Cmd?
    ensures outcome == Return(Good) ==> |dst| == size && GoodAttempt(events, i, j, s, cmd, src, dst)
    ensures Decides(cmd, size, events, outcome)
    ensures mode0 != Untested ==> mode == mode0
  {
    mode, outcome, j, s := mode0, Retry, 0, 0;
    var ok, payload;
    ok, dst, payload, i := TransferPayload(src, size);
    events := [Cmd(cmd, true)] + payload;
    OneCommand(cmd, payload, []);
    assert events[1..] == payload && events + [] == events;
    if ok {
      TransferredAll(cmd, payload, i, src, dst);
      var answer;
      i, j := i + 1, |events|;
      outcome, mode, answer, s := Confirm(mode);
      Concluded(events, answer);
      OneCommand(cmd, payload, answer);
      Appended(cmd, size, payload, answer, outcome);
      events := events + answer;
    }
  }

  lemma Concluded(sofar: seq<Event>, answer: seq<Event>)
    ensures (sofar + answer)[..|sofar|] == sofar && (sofar + answer)[|sofar|..] == answer
  {
  }

  lemma OneCommand(cmd: seq<Byte>, payload: seq<Event>, answer: seq<Event>)
    requires (forall e :: e in payload ==> IsPayload(e)) && NoCmd(answer)
    ensures var events := [Cmd(cmd, true)] + payload + answer; forall k :: 1 <= k < |events| ==> !events[k].Cmd?
  {
    var events := [Cmd(cmd, true)] + payload + answer;
    forall k | 1 <= k < |events|
      ensures !events[k].Cmd?
    {
      if k <= |payload| {
        assert events[k] == payload[k - 1] && payload[k - 1] in payload;
      } else {
        assert events[k] == answer[k - 1 - |payload|];
      }
    }
  }

  /** The answer decides the outcome. */
  lemma Appended(cmd: seq<Byte>, size: nat, payload: seq<Event>, answer: seq<Event>, outcome: Outcome)
    requires answer != [] && (forall e :: e in payload ==> IsPayload(e))
    requires outcome == Return(Good) ==> SaysGood(answer[|answer| - 1])
    requires outcome == Retry ==> Unclear(answer[|answer| - 1]) && forall e :: e in answer ==> !e.Sense?
    requires outcome.Return? && outcome.status != Good ==>
      (exists e :: e in answer && e.Sense?) && EndsWith(answer[|answer| - 1], outcome.status)
    ensures Decides(cmd, size, [Cmd(cmd, true)] + payload + answer, outcome)
  {
    var events := [Cmd(cmd, true)] + payload + answer;
    assert events[0] == Cmd(cmd, true) && events[|events| - 1] == answer[|answer| - 1];
    assert forall e :: e in events <==> e == Cmd(cmd, true) || e in payload || e in answer;
  }

  // ---------------------------------------------------------------- the command

  /** The events of all attempts, in order. */
  function Joined(attempts: seq<seq<Event>>): seq<Event> {
    if attempts == [] then [] else Joined(attempts[..|attempts| - 1]) + attempts[|attempts| - 1]
  }

  /** Every attempt but the last had to be repeated; the last one decides, and a third one is not repeated. */
  ghost predicate Ran(cmd: seq<Byte>, size: nat, attempts: seq<seq<Event>>, status: Status) {
    && 1 <= |attempts| <= COMMAND_TRIES
    && (forall k :: 0 <= k < |attempts| - 1 ==> Repeatable(cmd, size, attempts[k]))
    && var last := attempts[|attempts| - 1];
       if Repeatable(cmd, size, last) then |attempts| == COMMAND_TRIES && status == IoError
       else Decides(cmd, size, last, Return(status))
  }

  /** Good is returned if and only if one of the attempts succeeded, which is then the last one. */
  lemma GoodExactly(cmd: seq<Byte>, size: nat, attempts: seq<seq<Event>>, status: Status)
    requires Ran(cmd, size, attempts, status)
    ensures status == Good <==> exists k :: 0 <= k < |attempts| && Succeeded(cmd, attempts[k])
    ensures status == Good ==> Succeeded(cmd, attempts[|attempts| - 1])
  {
    forall k | 0 <= k < |attempts|
      ensures Succeeded(cmd, attempts[k]) ==> k == |attempts| - 1 && status == Good
    {
      Exclusive(cmd, size, attempts[k], status);
    }
  }

  /** After any other status, also after three commands, no attempt was a good one. */
  lemma NoneGood(cmd: seq<Byte>, size: nat, attempts: seq<seq<Event>>, status: Status, k: nat,
                 i: nat, j: nat, s: nat, src: seq<Byte>, dst: seq<Byte>)
    requires Ran(cmd, size, attempts, status) && status != Good && k < |attempts|
    ensures !GoodAttempt(attempts[k], i, j, s, cmd, src, dst)
  {
    GoodExactly(cmd, size, attempts, status);
    if GoodAttempt(attempts[k], i, j, s, cmd, src, dst) {
      GoodIsSuccess(attempts[k], i, j, s, cmd, src, dst);
      assert false;
    }
  }

  /**
   Run a command.  It is sent at most three times.  It is sent again exactly after an attempt
   that is to be repeated; Good is reported exactly when the last attempt succeeded, and that
   attempt then transferred everything in order and was confirmed by the device.
   */
  method AvisionCmd(cmd: seq<Byte>, src: seq<Byte>, size: nat, mode0: StatusMode)
    returns (status: Status, dst: seq<Byte>, mode: StatusMode, log: seq<Event>,
             ghost attempts: seq<seq<Event>>, ghost i: nat, ghost j: nat, ghost s: nat)
    ensures 1 <= Commands(log) == |attempts| <= COMMAND_TRIES && log == Joined(attempts)
    ensures Ran(Padded(cmd), size, attempts, status)
    ensures status == Good ==> |dst| == size && GoodAttempt(attempts[|attempts| - 1], i, j, s, Padded(cmd), src, dst)
    ensures mode0 != Untested ==> mode == mode0
  {
    mode, log, dst, attempts, i, j, s := mode0, [], [], [], 0, 0, 0;
    var retry := 4;
    while true
      invariant 1 <= retry <= 4 && Commands(log) == |attempts| == 4 - retry && log == Joined(attempts)
      invariant forall k :: 0 <= k < |attempts| ==> Repeatable(Padded(cmd), size, attempts[k])
      invariant mode0 != Untested ==> mode == mode0
      decreases retry
    {
      retry := retry - 1;
      if retry == 0 {
        status := IoError;
        return;
      }
      var outcome, events;
      outcome, dst, mode, events, i, j, s := Attempt(Padded(cmd), src, size, mode);
      AttemptCommands(log, events);
      assert (attempts + [events])[..|attempts|] == attempts;
      attempts := attempts + [events];
      log := log + events;
      if outcome.Return? {
        status := outcome.status;
        return;
      }
    }
  }

  lemma AttemptCommands(log: seq<Event>, events: seq<Event>)
    requires events != [] && events[0].Cmd? && forall k :: 1 <= k < |events| ==> !events[k].Cmd?
    ensures Commands(log + events) == Commands(log) + 1
  {
    Snoc(log, events[0]);
    NoCommands(log + [events[0]], events[1..]);
    assert log + events == log + [events[0]] + events[1..];
  }
}

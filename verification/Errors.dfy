/** Which error the client reports, response by response and on a line: core/client/src/client.cpp, exchangeCallback. */
module Errors {
  import opened Bytes
  import opened Crc
  import opened Detection
  import opened Frame
  import opened Resources
  import opened Server
  import opened Node
  import opened ClientFile
  import opened Requests
  import opened Client
  import opened Queue
  import opened Line
  import opened Transfer
  import opened Replies

  // ---------- One response ----------

  /** The length byte of a read response promises more than the client's file has room for. */
  ghost predicate TooLong(f: FileState, response: seq<byte>) {
    |response| >= 4 && f.counter * f.recordSize + Value(response[3]) > f.fileSize
  }

  /** The error of an exchange that had none before: a timeout exactly if nothing was heard, a checksum error exactly if
      something was heard that is no valid frame, a server exception exactly if a valid frame has another length than
      the one awaited, and an internal error exactly if a record does not fit into the file. Only a timeout makes the
      server unavailable, only a ping makes it available, and only a record that fits changes the file. */
  lemma FaultExactly(c: ClientState, x: Exchange, response: seq<byte>)
    requires c.info.fault == NoFault && CallbackDefined(Begun(c, x), response)
    ensures var d, valid, awaited := Step(c, x, response), ChecksumValid(response), |response| == Expected(x);
            && (d.info.fault == TimeoutFault <==> response == [])
            && (d.info.fault == CrcFault <==> response != [] && !valid)
            && (d.info.fault == ServerFault <==> valid && !awaited)
            && (d.info.fault == InternalFault
                <==> valid && awaited && c.info.task.ReadFileTask? && TooLong(c.file, response))
            && (d.available <==> response != [] && (c.available || (valid && awaited && c.info.task.PingTask?)))
            && (d.info.fault != NoFault || !c.info.task.ReadFileTask? ==> d.file == c.file)
  {
    hide ChecksumValid, Expected, Overwrite, Value;
    NothingIsInvalid();
    if ChecksumValid(response) { ValidIsLong(response); }
  }

  lemma ValidIsLong(frame: seq<byte>)
    requires ChecksumValid(frame)
    ensures |frame| >= 5 && |Pdu(frame)| >= 2 && (|frame| >= 6 ==> Pdu(frame)[2] == frame[3])
  {
  }

  // ---------- A queue ----------

  lemma {:induction false} BeforeTheFault(c: ClientState, queue: seq<Exchange>, responses: seq<seq<byte>>, j: nat)
    requires j <= |queue| <= |responses| && c.info.fault == NoFault
    requires forall i :: 0 < i <= j ==> StateAfter(c, queue, responses, i).info.fault == NoFault
    requires forall i :: 0 <= i < j ==>
               CallbackDefined(Begun(StateAfter(c, queue, responses, i), queue[i]), responses[i])
    ensures var d := StateAfter(c, queue, responses, j);
            && d.info.fault == NoFault && d.info.task == c.info.task
            && (d.available <==> c.available || (j > 0 && c.info.task.PingTask?))
  {
    hide Step, ChecksumValid, Expected, CallbackDefined, TooLong;
    if j > 0 {
      BeforeTheFault(c, queue, responses, j - 1);
      var d := StateAfter(c, queue, responses, j - 1);
      assert CallbackDefined(Begun(StateAfter(c, queue, responses, j - 1), queue[j - 1]), responses[j - 1]);
      FaultExactly(d, queue[j - 1], responses[j - 1]);
      StepCounts(d, queue[j - 1], responses[j - 1]);
    }
  }

  /** The error of a task is that of the last exchange that was run. Unless that was lost, the server stays available,
      and a ping makes it so. */
  lemma RunFaultExactly(c: ClientState, queue: seq<Exchange>, responses: seq<seq<byte>>)
    requires 0 < |queue| <= |responses| && c.info.fault == NoFault && RunDefined(c, queue, responses)
    ensures var t, k := RunQueue(c, queue, responses), Executed(c, queue, responses);
            var valid, awaited := ChecksumValid(responses[k - 1]), |responses[k - 1]| == Expected(queue[k - 1]);
            && (t.info.fault == TimeoutFault <==> responses[k - 1] == [])
            && (t.info.fault == CrcFault <==> responses[k - 1] != [] && !valid)
            && (t.info.fault == ServerFault <==> valid && !awaited)
            && (t.info.fault == InternalFault <==>
                  && valid && awaited && c.info.task.ReadFileTask?
                  && TooLong(StateAfter(c, queue, responses, k - 1).file, responses[k - 1]))
            && (t.info.fault == TimeoutFault ==> !t.available)
            && (!c.info.task.PingTask? && t.info.fault != TimeoutFault ==> t.available == c.available)
            && (c.info.task.PingTask? && t.info.fault == NoFault ==> t.available)
  {
    hide Step, ChecksumValid, Expected, CallbackDefined, TooLong, RunQueue, Executed, RunDefined;
    var k := Executed(c, queue, responses);
    RunIsPrefix(c, queue, responses);
    RunDefinedBySteps(c, queue, responses);
    BeforeTheFault(c, queue, responses, k - 1);
    var d := StateAfter(c, queue, responses, k - 1);
    assert CallbackDefined(Begun(StateAfter(c, queue, responses, k - 1), queue[k - 1]), responses[k - 1]);
    FaultExactly(d, queue[k - 1], responses[k - 1]);
  }

  // ---------- One exchange on the line ----------

  /** The request reached a node that waited for it. */
  ghost predicate Reached(s: Store, x: Exchange, w: Crossing) {
    w.arrived != [] && |Request(x)| == s.link.size
  }

  lemma RequestIsLong(x: Exchange)
    requires TransferExchange(x)
    ensures Expected(x) > 5
  {
    hide Request;
    RequestIsValid(x);
  }

  lemma NothingReached(address: byte, s: Store, x: Exchange, w: Crossing)
    requires WellFormed(s) && TransferExchange(x) && Crosses(address, s, x, w) && !Reached(s, x, w)
    ensures |w.before| == BUFFER_SIZE && w.carried == []
  {
    hide Request, TaskOutcome, Detectable, WellFormed;
    assert s.link.size >= 8 by { LinkIsArmed(s); }
    RequestIsValid(x);
  }

  lemma LinkIsArmed(s: Store)
    requires WellFormed(s)
    ensures s.link.size >= 8
  {
  }

  lemma DamagedReached(address: byte, s: Store, x: Exchange, w: Crossing)
    requires WellFormed(s) && TransferExchange(x) && Crosses(address, s, x, w) && Reached(s, x, w)
    requires w.arrived != Request(x)
    ensures |w.before| == BUFFER_SIZE && |w.arrived| == |Request(x)| && w.carried == Served(address, s, w).reply
    ensures if w.arrived[0] == address then |w.carried| == 5 && ChecksumValid(w.carried)
            else w.carried == w.arrived && !ChecksumValid(w.carried)
  {
    hide Request, TaskOutcome, Detectable, WellFormed, ChecksumValid, ExceptionReply, Received;
    RequestIsValid(x);
    DamagedRequest(address, s, x, w.before, w.arrived);
    var buffer := Received(w.before, w.arrived);
    assert buffer[0] == buffer[..|w.arrived|][0];
    ReplyKinds(address, s, buffer, |w.arrived|);
    ExceptionReplyIsValid(address, buffer[1], 3);
  }

  lemma IntactReached(address: byte, s: Store, x: Exchange, w: Crossing)
    requires WellFormed(s) && TransferExchange(x) && Bounded(x) && x.address == address
    requires Crosses(address, s, x, w) && Reached(s, x, w) && w.arrived == Request(x)
    ensures |w.before| == BUFFER_SIZE
    ensures var o := Served(address, s, w);
            && ChecksumValid(o.reply)
            && (|o.reply| == Expected(x) <==> o.verdict == Verdict.NoError)
            && (w.carried == o.reply || w.carried == [] || !ChecksumValid(w.carried))
  {
    hide Request, TaskOutcome, Detectable, WellFormed, ChecksumValid, Received, Expected;
    RequestIsValid(x);
    IntactRequest(address, s, x, w.before);
    IntactReply(Served(address, s, w).reply, Expected(x), w.carried);
  }

  /** The errors of an exchange of a transfer on a line that loses or damages at most one frame, as long as the
      client waits for at least as many bytes as it sent. A request or a reply that is lost, or a node that waits
      for another length, is a timeout. A reply that is damaged, or a request whose address is, is a checksum error.
      Every other damage to the request, and every refusal of an intact one, is a server exception. Only where an
      intact request is performed and its reply arrives does the exchange go well, up to a record that the client's
      file has no room for. */
  lemma ErrorOnTheLine(address: byte, s: Store, x: Exchange, w: Crossing, c: ClientState)
    requires WellFormed(s) && TransferExchange(x) && Bounded(x) && x.address == address
    requires Crosses(address, s, x, w) && |Request(x)| <= Expected(x)
    requires c.info.fault == NoFault && CallbackDefined(Begun(c, x), Heard(x, w))
    ensures |w.before| == BUFFER_SIZE
    ensures var d, o, intact := Step(c, x, Heard(x, w)), Served(address, s, w), w.arrived == Request(x);
            && (!Reached(s, x, w) ==> w.carried == [])
            && (d.info.fault == TimeoutFault <==> w.carried == [])
            && (d.info.fault == CrcFault <==>
                  w.carried != [] && if intact then w.carried != o.reply else w.arrived[0] != address)
            && (d.info.fault == ServerFault <==>
                  w.carried != [] && if intact then w.carried == o.reply && o.verdict != Verdict.NoError
                                     else w.arrived[0] == address)
            && (d.info.fault in {NoFault, InternalFault} <==>
                  w.carried != [] && intact && w.carried == o.reply && o.verdict == Verdict.NoError)
            && (d.available <==> w.carried != [] && (c.available || (d.info.fault == NoFault && c.info.task.PingTask?)))
  {
    hide Request, Served, Crosses, WellFormed, ChecksumValid, Expected, Step, Heard, Bounded, TransferExchange,
         CallbackDefined, Begun, Reached, TooLong;
    NothingIsInvalid();
    RequestIsLong(x);
    NothingIsLeft(address, s, x, w);
    FaultExactly(c, x, w.carried);
    if !Reached(s, x, w) {
      NothingReached(address, s, x, w);
    } else if w.arrived == Request(x) {
      IntactReached(address, s, x, w);
    } else {
      DamagedReached(address, s, x, w);
    }
  }

  /** For an intact request that the node waits for, of any length awaited: a refusal that is delivered is a server
      exception, a lost reply a timeout, a damaged one a checksum error. Only the lost one makes the server
      unavailable. */
  lemma ErrorOfIntact(address: byte, s: Store, x: Exchange, w: Crossing, c: ClientState)
    requires WellFormed(s) && TransferExchange(x) && Bounded(x) && x.address == address && |Request(x)| == s.link.size
    requires Crosses(address, s, x, w) && w.arrived == Request(x)
    requires c.info.fault == NoFault && CallbackDefined(Begun(c, x), Heard(x, w))
    ensures |w.before| == BUFFER_SIZE
    ensures var d, o := Step(c, x, Heard(x, w)), Served(address, s, w);
            && o.reply != []
            && (w.carried == o.reply && o.verdict != Verdict.NoError <==> d.info.fault == ServerFault)
            && (w.carried == [] <==> d.info.fault == TimeoutFault)
            && (w.carried != o.reply && w.carried != [] <==> d.info.fault == CrcFault)
            && (!c.info.task.PingTask? ==> (d.available <==> c.available && w.carried != []))
  {
    hide Request, Served, Crosses, WellFormed, ChecksumValid, Expected, Step, Bounded, TransferExchange,
         CallbackDefined, Begun, TooLong;
    NothingIsInvalid();
    RequestIsLong(x);
    IntactIsReached(s, x, w);
    IntactReached(address, s, x, w);
    IntactIsHeard(address, s, x, w);
    FaultExactly(c, x, w.carried);
  }

  lemma IntactIsReached(s: Store, x: Exchange, w: Crossing)
    requires TransferExchange(x) && |Request(x)| == s.link.size && w.arrived == Request(x)
    ensures Reached(s, x, w)
  {
    hide Request;
    RequestIsValid(x);
  }

  lemma IntactIsHeard(address: byte, s: Store, x: Exchange, w: Crossing)
    requires WellFormed(s) && TransferExchange(x) && Bounded(x) && x.address == address && |Request(x)| == s.link.size
    requires Crosses(address, s, x, w) && w.arrived == Request(x)
    ensures Heard(x, w) == w.carried
  {
    hide Request, TaskOutcome, Detectable, WellFormed, ChecksumValid, Received, Expected;
    RequestIsValid(x);
    IntactRequest(address, s, x, w.before);
    IntactReply(Served(address, s, w).reply, Expected(x), w.carried);
  }

  /** A client that awaits nothing, as after a reset, takes no response: whatever it hears is an error. */
  lemma NothingAwaited(c: ClientState, extra: nat, response: seq<byte>)
    requires c.info.expected in {Fresh(c.info.task, 0).expected, ExpectedLength(NoTask, extra)}
             && c.info.fault == NoFault
    ensures AfterResponse(c, response).info.fault != NoFault && AfterResponse(c, response).file == c.file
  {
    hide ChecksumValid, Load;
    if ChecksumValid(response) { ValidIsLong(response); }
  }
}

/** Runs of the exchange queue, whatever the line answers. */
module Queue {
  import opened Bytes
  import opened Frame
  import opened ClientFile
  import opened Client

  /** The client after the first j exchanges, had none of them stopped the queue. */
  ghost function StateAfter(c: ClientState, queue: seq<Exchange>, responses: seq<seq<byte>>, j: nat): ClientState
    requires j <= |queue| <= |responses|
  {
    if j == 0 then c else Step(StateAfter(c, queue, responses, j - 1), queue[j - 1], responses[j - 1])
  }

  lemma {:induction false} StateAfterShift(c: ClientState, queue: seq<Exchange>, responses: seq<seq<byte>>, j: nat)
    requires j < |queue| <= |responses|
    ensures StateAfter(Step(c, queue[0], responses[0]), queue[1..], responses[1..], j)
            == StateAfter(c, queue, responses, j + 1)
  {
    hide Step;
    if j > 0 { StateAfterShift(c, queue, responses, j - 1); }
  }

  /** The run is the first k exchanges in order: every earlier one went well, and if any is left the last one failed. */
  lemma {:induction false} RunIsPrefix(c: ClientState, queue: seq<Exchange>, responses: seq<seq<byte>>)
    requires |queue| <= |responses|
    ensures var k := Executed(c, queue, responses);
            && RunQueue(c, queue, responses) == StateAfter(c, queue, responses, k)
            && (forall j :: 0 < j < k ==> StateAfter(c, queue, responses, j).info.fault == NoFault)
            && (k < |queue| ==> StateAfter(c, queue, responses, k).info.fault != NoFault)
    decreases |queue|
  {
    hide Step;
    if |queue| > 0 {
      var d, q, r := Step(c, queue[0], responses[0]), queue[1..], responses[1..];
      StateAfterShift(c, queue, responses, 0);
      if d.info.fault == NoFault {
        RunIsPrefix(d, q, r);
        var k := Executed(d, q, r);
        if k > 0 { StateAfterShift(c, queue, responses, k); }
        forall j | 0 < j < k + 1 ensures StateAfter(c, queue, responses, j).info.fault == NoFault {
          if j > 1 { StateAfterShift(c, queue, responses, j - 1); }
        }
      }
    }
  }

  lemma StepCounts(c: ClientState, x: Exchange, response: seq<byte>)
    ensures var a, b := c.info, Step(c, x, response).info;
            && b.counter == a.counter + 1 && b.exchanges == a.exchanges && b.task == a.task
            && (b.done <==> a.done || b.counter == b.exchanges || !ChecksumValid(response))
            && (!ChecksumValid(response) || |response| != Expected(x) ==> b.fault != NoFault)
  {
    hide Load, Loadable, Pdu, ChecksumValid, Expected;
  }

  lemma {:induction false} RunCounts(c: ClientState, queue: seq<Exchange>, responses: seq<seq<byte>>, j: nat)
    requires j <= |queue| <= |responses| && c.info.counter == 0 && c.info.exchanges == |queue| && !c.info.done
    requires forall i :: 0 < i < j ==> StateAfter(c, queue, responses, i).info.fault == NoFault
    ensures var a := StateAfter(c, queue, responses, j).info;
            && a.counter == j && a.exchanges == |queue| && a.task == c.info.task
            && (a.done <==> j > 0 && (j == |queue| || !ChecksumValid(responses[j - 1])))
  {
    hide Step, ChecksumValid;
    if j > 0 {
      RunCounts(c, queue, responses, j - 1);
      StepCounts(StateAfter(c, queue, responses, j - 1), queue[j - 1], responses[j - 1]);
      if j > 1 { StepCounts(StateAfter(c, queue, responses, j - 2), queue[j - 2], responses[j - 2]); }
    }
  }

  /** One task of n exchanges: a prefix of k exchanges is run, the counter is k, and the waiting caller is released
      exactly if all n were run or the last response failed its checksum. */
  lemma QueueRun(c: ClientState, queue: seq<Exchange>, responses: seq<seq<byte>>)
    requires 0 < |queue| <= |responses|
    requires c.info == Fresh(c.info.task, |queue|)
    ensures var t, k := RunQueue(c, queue, responses), Executed(c, queue, responses);
            && 1 <= k <= |queue|
            && t.info.counter == k <= t.info.exchanges == |queue|
            && (t.info.fault == NoFault ==> k == |queue|)
            && (t.info.done <==> k == |queue| || !ChecksumValid(responses[k - 1]))
  {
    hide Step, ChecksumValid, StateAfter;
    RunIsPrefix(c, queue, responses);
    RunCounts(c, queue, responses, Executed(c, queue, responses));
  }

  /** Wherever before the last exchange the first error is a valid response of the wrong length, the queue stops
      there and the caller is never released. */
  lemma EarlyRefusalNeverCompletes(c: ClientState, queue: seq<Exchange>, responses: seq<seq<byte>>, k: nat)
    requires 0 < k < |queue| <= |responses|
    requires c.info == Fresh(c.info.task, |queue|)
    requires forall j :: 0 < j < k ==> StateAfter(c, queue, responses, j).info.fault == NoFault
    requires ChecksumValid(responses[k - 1]) && |responses[k - 1]| != Expected(queue[k - 1])
    ensures var t := RunQueue(c, queue, responses);
            t.info.fault != NoFault && !t.info.done && Executed(c, queue, responses) == k
  {
    hide Step, ChecksumValid, Expected, RunQueue, Executed;
    StepCounts(StateAfter(c, queue, responses, k - 1), queue[k - 1], responses[k - 1]);
    RunIsPrefix(c, queue, responses);
    RunCounts(c, queue, responses, k);
    assert StateAfter(c, queue, responses, k).info.fault != NoFault;
  }

  /** Without a fault, every exchange was run and every response was valid and of the expected length. */
  lemma FaultFreeRun(c: ClientState, queue: seq<Exchange>, responses: seq<seq<byte>>)
    requires |queue| <= |responses| && RunQueue(c, queue, responses).info.fault == NoFault && c.info.fault == NoFault
    ensures Executed(c, queue, responses) == |queue|
    ensures RunQueue(c, queue, responses) == StateAfter(c, queue, responses, |queue|)
    ensures forall j :: 0 <= j <= |queue| ==> StateAfter(c, queue, responses, j).info.fault == NoFault
    ensures forall j :: 0 <= j < |queue| ==> ChecksumValid(responses[j]) && |responses[j]| == Expected(queue[j])
  {
    hide Step, ChecksumValid, Expected;
    RunIsPrefix(c, queue, responses);
    forall j | 0 <= j < |queue| ensures ChecksumValid(responses[j]) && |responses[j]| == Expected(queue[j]) {
      StepCounts(StateAfter(c, queue, responses, j), queue[j], responses[j]);
      assert StateAfter(c, queue, responses, j + 1).info.fault == NoFault;
    }
  }

  /** The converse: if no prefix of the queue reports a fault, the run is the whole queue. */
  lemma WholeRun(c: ClientState, queue: seq<Exchange>, responses: seq<seq<byte>>)
    requires |queue| <= |responses|
    requires forall j :: 0 <= j <= |queue| ==> StateAfter(c, queue, responses, j).info.fault == NoFault
    ensures Executed(c, queue, responses) == |queue|
    ensures RunQueue(c, queue, responses) == StateAfter(c, queue, responses, |queue|)
  {
    hide Step;
    RunIsPrefix(c, queue, responses);
  }

  /** The source reads nothing outside the responses of a run exactly if it does not in any step that is executed. */
  lemma {:induction false} RunDefinedBySteps(c: ClientState, queue: seq<Exchange>, responses: seq<seq<byte>>)
    requires |queue| <= |responses|
    ensures RunDefined(c, queue, responses) <==>
            forall j :: 0 <= j < Executed(c, queue, responses) ==>
              CallbackDefined(Begun(StateAfter(c, queue, responses, j), queue[j]), responses[j])
    decreases |queue|
  {
    hide Step, CallbackDefined, Begun;
    if |queue| > 0 {
      var d, q, r := Step(c, queue[0], responses[0]), queue[1..], responses[1..];
      assert StateAfter(c, queue, responses, 0) == c;
      if d.info.fault == NoFault {
        RunDefinedBySteps(d, q, r);
        forall j | 0 <= j < Executed(d, q, r)
          ensures StateAfter(d, q, r, j) == StateAfter(c, queue, responses, j + 1) && q[j] == queue[j + 1]
                  && r[j] == responses[j + 1]
        {
          StateAfterShift(c, queue, responses, j);
        }
        if forall j :: 0 <= j < Executed(c, queue, responses) ==>
             CallbackDefined(Begun(StateAfter(c, queue, responses, j), queue[j]), responses[j]) {
          forall j | 0 <= j < Executed(d, q, r) ensures CallbackDefined(Begun(StateAfter(d, q, r, j), q[j]), r[j]) {
            assert CallbackDefined(Begun(StateAfter(c, queue, responses, j + 1), queue[j + 1]), responses[j + 1]);
          }
        }
        if RunDefined(c, queue, responses) {
          forall j | 0 <= j < Executed(c, queue, responses)
            ensures CallbackDefined(Begun(StateAfter(c, queue, responses, j), queue[j]), responses[j])
          {
            if j > 0 { assert CallbackDefined(Begun(StateAfter(d, q, r, j - 1), q[j - 1]), r[j - 1]); }
          }
        }
      }
    }
  }
}

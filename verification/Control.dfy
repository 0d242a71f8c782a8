/**
 The control object: the gate, the wrapping sequence counter, and one operation
 from the token on.
 */
module Controls {
  import opened Wrappers
  import opened Bytes
  import opened Wire
  import opened Messages
  import opened NeighborRequests
  import opened Requests
  import opened Tasks
  import opened RequestTasks
  import opened Refinement
  import opened Gates

  /** The least time point of the steady clock, in nanoseconds. */
  const TIME_POINT_MIN := -0x8000_0000_0000_0000

  /** The number that fetch_add on a wrapping 32-bit counter returns k calls
      after it returned `start`. */
  function SequenceAt(start: U32, k: nat): U32 {
    (start + k) % TWO_TO_THE_32
  }

  class Control {
    var expiry: int
    var calls: nat
    var armed: seq<nat>
    var ended: seq<Wakeup>
    var sequence: U32

    constructor ()
      ensures Gate() == GateState(TIME_POINT_MIN, 0, [], []) && GateInv(Gate())
      ensures sequence == 1
    {
      expiry := TIME_POINT_MIN;
      calls, armed, ended := 0, [], [];
      sequence := 1;
    }

    function Gate(): GateState
      reads this
    {
      GateState(expiry, calls, armed, ended)
    }

    /** acquire_socket_token up to its wait. Setting the expiry cancels the waits
        that are armed. */
    method AcquireSocketToken(now: int)
      modifies this`expiry, this`calls, this`armed, this`ended
      ensures Gate() == Next(old(Gate()), Acquire(now))
      ensures old(expiry) < expiry && now < expiry
    {
      var next := expiry + 1;
      if next <= now {
        next := now + 1;
      }
      ended := ended + EndAll(armed, OperationAborted);
      armed := [];
      expiry := next;
      armed := armed + [calls];
      calls := calls + 1;
    }

    /** The timer service at time now. */
    method TimerTick(now: int)
      modifies this`armed, this`ended
      ensures Gate() == Next(old(Gate()), Tick(now))
    {
      if expiry <= now {
        ended := ended + EndAll(armed, Success);
        armed := [];
      }
    }

    /** After wait i: only a failed timer raises an error. */
    method AfterWait(i: nat) returns (throws: bool)
      requires i < |ended|
      ensures throws <==> ended[i].code == OtherError
    {
      var code := ended[i].code;
      throws := code != Success && code != OperationAborted;
    }

    method FetchAdd() returns (s: U32)
      modifies this`sequence
      ensures s == old(sequence) && sequence == SequenceAt(s, 1)
    {
      s := sequence;
      sequence := (sequence + 1) % TWO_TO_THE_32;
    }

    /** An operation once it has its token: open the socket, draw a sequence
        number, run the request. The wire gets the operation's request with the number
        drawn, as far as the sends take it; on legible input the caller gets what a
        scan of the delivered messages gives. */
    method Operate(kind: TaskKind, ifindex: U16, address: seq<Byte>, openError: Option<int>, sends: seq<Send>,
                   receives: seq<Receive>, ghost packets: seq<Packet>, ghost failure: Option<int>)
      returns (status: Status, wire: seq<Byte>)
      requires |address| == ADDRESS_BYTES
      modifies this`sequence
      ensures openError.Some? ==>
                status == Returned(Failed(openError.value)) && wire == [] && sequence == old(sequence)
      ensures RequestFor(kind, ifindex, old(sequence), address).Valid()
      ensures openError.None? ==>
                var payload := RequestFor(kind, ifindex, old(sequence), address).Encode();
                && sequence == SequenceAt(old(sequence), 1)
                && wire == payload[..Min(|payload|, Taken(sends))]
                && (wire != payload ==>
                      status == match FirstFailure(sends)
                                case SendError(code) => Returned(Failed(code))
                                case _ => Pending)
                && (forall k: nat | FailsAt(sends, k, |payload|) ::
                      status == Returned(Failed(sends[k].code)) && wire == payload[..Accepted(sends[..k])])
                && (wire == payload
                    && receives == Datagrams(packets) + Ending(failure)
                    && (forall p | p in packets :: WellFormed(Config(kind, old(sequence)), p)) ==>
                      status == match Scan(Config(kind, old(sequence)), Delivered(packets, MAX_RESPONSE_BYTES)) {
                        case Some(outcome) => Returned(outcome)
                        case None => match failure {
                          case None => Pending
                          case Some(code) => Returned(Failed(code))
                        }
                      })
    {
      hide ReadRun, Scan, Delivered, WellFormed, Datagrams, Taken, FirstFailure, RequestFor;
      RequestForIsValid(kind, ifindex, sequence, address);
      if openError.Some? {
        return Returned(Failed(openError.value)), [];
      }
      var s := FetchAdd();
      var task := new RequestTask(kind, ifindex, s, address);
      ghost var buffer := task.buffer[..];
      status := task.AsyncRun(sends, receives);
      wire := task.wire;
      if receives == Datagrams(packets) + Ending(failure) && forall p | p in packets :: WellFormed(Config(kind, s), p) {
        ReadIsScan(Config(kind, s), buffer, packets, failure);
      }
    }
  }

  /** Numbers are drawn upwards, and two draws give the same number exactly when
      they are a multiple of 2^32 draws apart. */
  lemma {:induction false} SequencesRepeatIff(start: U32, i: nat, j: nat)
    ensures SequenceAt(start, i) == SequenceAt(start, j) <==> (i - j) % TWO_TO_THE_32 == 0
    ensures start + i < TWO_TO_THE_32 ==> SequenceAt(start, i) == start + i
  {
    var a, b := (start + i) / TWO_TO_THE_32, (start + j) / TWO_TO_THE_32;
    assert start + i == a * TWO_TO_THE_32 + SequenceAt(start, i);
    assert start + j == b * TWO_TO_THE_32 + SequenceAt(start, j);
    assert i - j == (a - b) * TWO_TO_THE_32 + SequenceAt(start, i) - SequenceAt(start, j);
  }

  /** The message answers none of the first n requests. */
  predicate Stray(start: U32, n: nat, m: seq<Byte>) {
    forall i | 0 <= i < n :: SeqNo(m) != SequenceAt(start, i)
  }

  /** msgs is an interleaving of the streams and of any stray messages. */
  ghost predicate Interleaves(start: U32, msgs: seq<seq<Byte>>, streams: seq<seq<seq<Byte>>>)
    decreases |msgs|
  {
    if msgs == [] then forall i | 0 <= i < |streams| :: streams[i] == []
    else
      || (Stray(start, |streams|, msgs[0]) && Interleaves(start, msgs[1..], streams))
      || exists i | 0 <= i < |streams| ::
           && streams[i] != [] && streams[i][0] == msgs[0]
           && Interleaves(start, msgs[1..], streams[i := streams[i][1..]])
  }

  /** Stream i holds answers to request i only. */
  predicate Answers(start: U32, streams: seq<seq<seq<Byte>>>) {
    forall i, m | 0 <= i < |streams| && m in streams[i] :: SeqNo(m) == SequenceAt(start, i)
  }

  lemma {:induction false} OwnOfInterleaving(start: U32, msgs: seq<seq<Byte>>, streams: seq<seq<seq<Byte>>>, i: nat)
    requires i < |streams| <= TWO_TO_THE_32
    requires Interleaves(start, msgs, streams) && Answers(start, streams)
    ensures OwnMessages(SequenceAt(start, i), msgs) == streams[i]
    decreases |msgs|
  {
    hide SequenceAt, SeqNo;
    if msgs == [] {
    } else if Stray(start, |streams|, msgs[0]) && Interleaves(start, msgs[1..], streams) {
      OwnOfInterleaving(start, msgs[1..], streams, i);
    } else {
      var j :| 0 <= j < |streams| && streams[j] != [] && streams[j][0] == msgs[0]
               && Interleaves(start, msgs[1..], streams[j := streams[j][1..]]);
      var rest := streams[j := streams[j][1..]];
      forall k, m | 0 <= k < |rest| && m in rest[k]
        ensures SeqNo(m) == SequenceAt(start, k)
      {
        assert m in streams[k];
      }
      OwnOfInterleaving(start, msgs[1..], rest, i);
      assert msgs[0] in streams[j];
      if i == j {
        assert streams[i] == [msgs[0]] + streams[i][1..];
      } else {
        NumbersDiffer(start, i, j);
      }
    }
  }

  lemma NumbersDiffer(start: U32, i: nat, j: nat)
    requires i != j && i < TWO_TO_THE_32 && j < TWO_TO_THE_32
    ensures SequenceAt(start, i) != SequenceAt(start, j)
  {
  }

  /** Up to 2^32 consecutive requests may run at once: over any interleaving of
      their answers and of unrelated messages, no message is accepted by two
      tasks, and each task ends as it would on its own answers alone. */
  lemma {:induction false} ConcurrentRequestsDoNotInterfere(
    start: U32, kinds: seq<TaskKind>, msgs: seq<seq<Byte>>, streams: seq<seq<seq<Byte>>>, i: nat)
    requires i < |kinds| == |streams| <= TWO_TO_THE_32
    requires Interleaves(start, msgs, streams) && Answers(start, streams)
    ensures var cfg := Config(kinds[i], SequenceAt(start, i));
            Run(cfg, [], msgs) == Run(cfg, [], streams[i])
    ensures forall j, m | 0 <= j < |kinds| && j != i && m in msgs ::
              !(Mine(Config(kinds[i], SequenceAt(start, i)), m) && Mine(Config(kinds[j], SequenceAt(start, j)), m))
  {
    hide Run, SequenceAt, SeqNo, Stray;
    OwnOfInterleaving(start, msgs, streams, i);
    ForeignMessagesAreIgnored(Config(kinds[i], SequenceAt(start, i)), [], msgs);
    forall j | 0 <= j < |kinds| && j != i
      ensures SequenceAt(start, i) != SequenceAt(start, j)
    {
      NumbersDiffer(start, i, j);
    }
  }

  /** On the wire: whatever datagrams carry the interleaving, over whatever
      buffers, each task returns what it would return reading its own answers
      alone, message by message. */
  lemma {:induction false} ConcurrentRequestsOnTheWire(
    start: U32, kinds: seq<TaskKind>, packets: seq<Packet>, streams: seq<seq<seq<Byte>>>, i: nat,
    buffer: seq<Byte>, failure: Option<int>)
    requires i < |kinds| == |streams| <= TWO_TO_THE_32
    requires Interleaves(start, Flatten(packets), streams) && Answers(start, streams)
    requires GoodBuffer(buffer)
    requires forall p | p in packets ::
               WellFormed(Config(kinds[i], SequenceAt(start, i)), p) && |Pack(p)| <= |buffer|
    ensures var cfg := Config(kinds[i], SequenceAt(start, i));
            ReadRun(cfg, [], buffer, Datagrams(packets) + Ending(failure))
            == SessionOf(Run(cfg, [], streams[i]), failure)
  {
    hide Run, ReadRun, SequenceAt, SeqNo, WellFormed, Pack, Datagrams, Interleaves, Answers, Flatten;
    ReadIsRun(Config(kinds[i], SequenceAt(start, i)), [], buffer, packets, failure);
    NothingIsCut(packets, |buffer|);
    ConcurrentRequestsDoNotInterfere(start, kinds, Flatten(packets), streams, i);
  }
}

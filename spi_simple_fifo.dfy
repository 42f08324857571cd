// The order in which RX data comes back. A word stored in the RX FIFO is the
// reply to an RX/TX transfer started earlier; the stream of replies the driver
// will still be able to read is the RX FIFO followed by the replies of the
// queued transfers that store theirs. As long as that stream fits the RX FIFO,
// RX data is read in the same order as the transactions were started. The
// non-blocking RX/TX only checks the RX FIFO's current level, so the stream can
// outgrow the FIFO and a reply is then lost.

module SpiSimpleFifo {
  import opened SpiSimpleH
  import opened SpiSimpleSim
  import opened SpiSimpleCalls

  /** The replies still to come from the queued transfers, oldest first: one per
      transfer issued with STORE_RX = 1. */
  function Pending(tx: seq<Transfer>, reply: (bv32, bv32) -> bv32): (p: seq<bv32>)
    ensures |p| <= |tx|
  {
    if tx == [] then []
    else (if tx[0].storeRx then [reply(tx[0].slave, tx[0].data)] else []) + Pending(tx[1..], reply)
  }

  /** The RX words the driver can still read, in the order it will read them. */
  function Outstanding(c: Core): seq<bv32> {
    c.rx + Pending(c.tx, c.slaveReply)
  }

  /** Every outstanding reply will find room in the RX FIFO. */
  predicate NoOverflow(c: Core) {
    |Outstanding(c)| <= c.rxDepth
  }

  /** The replies of two queues one after the other. */
  lemma {:induction false} PendingAppend(x: seq<Transfer>, y: seq<Transfer>, reply: (bv32, bv32) -> bv32)
    ensures Pending(x + y, reply) == Pending(x, reply) + Pending(y, reply)
    decreases |x|
  {
    if x == [] {
      assert x + y == y;
    } else {
      assert (x + y)[0] == x[0];
      assert (x + y)[1..] == x[1..] + y;
      PendingAppend(x[1..], y, reply);
    }
  }

  /** A transfer that completes while the stream fits moves its reply, if any, from the
      queue into the RX FIFO: the stream is unchanged. */
  lemma CompleteKeepsOutstanding(c: Core)
    requires c.Valid() && NoOverflow(c)
    ensures Outstanding(Complete(c)) == Outstanding(c)
  {
    if c.tx != [] {
      var t := c.tx[0];
      var rest := Pending(c.tx[1..], c.slaveReply);
      if t.storeRx {
        assert Pending(c.tx, c.slaveReply) == [c.slaveReply(t.slave, t.data)] + rest;
        assert Complete(c).rx == c.rx + [c.slaveReply(t.slave, t.data)];
      } else {
        assert Pending(c.tx, c.slaveReply) == rest;
        assert Complete(c).rx == c.rx;
      }
    }
  }

  /** A transfer that stores its reply but completes with the RX FIFO full loses that
      reply: it leaves the stream. */
  lemma CompleteLosesReply(c: Core)
    requires c.Valid() && c.tx != [] && c.tx[0].storeRx && RxFull(c)
    ensures Outstanding(c) == c.rx + [c.slaveReply(c.tx[0].slave, c.tx[0].data)] + Pending(c.tx[1..], c.slaveReply)
    ensures Outstanding(Complete(c)) == c.rx + Pending(c.tx[1..], c.slaveReply)
  {
  }

  /** While the stream fits, waiting until the core is idle leaves exactly the stream in the RX FIFO. */
  lemma {:induction false} DrainOutstanding(c: Core)
    requires c.Valid() && NoOverflow(c)
    ensures Drain(c).rx == Outstanding(c)
    decreases |c.tx|
  {
    if c.tx != [] {
      CompleteKeepsOutstanding(c);
      DrainOutstanding(Complete(c));
    }
  }

  /** A non-blocking TX adds nothing to the stream: its transfer does not store a reply. */
  lemma TxNonBlockingKeepsOutstanding(b: Bus, slave: bv8, txData: bv32)
    requires b.core.Valid() && NoOverflow(b.core)
    ensures var r := TxNonBlocking(b, slave, txData);
      Outstanding(r.bus.core) == Outstanding(b.core)
  {
    TxNonBlockingSpec(b, slave, txData);
    CompleteKeepsOutstanding(b.core);
    var c1 := Complete(b.core);
    PendingAppend(c1.tx, [Transfer(txData, slave as bv32, false)], c1.slaveReply);
  }

  /** A successful non-blocking RX/TX appends its reply to the stream; a failed one leaves it alone. */
  lemma RxTxNonBlockingAppends(b: Bus, slave: bv8, txData: bv32)
    requires b.core.Valid() && NoOverflow(b.core)
    ensures var r := RxTxNonBlocking(b, slave, txData);
      && (r.code == Success ==>
            Outstanding(r.bus.core) == Outstanding(b.core) + [b.core.slaveReply(slave as bv32, txData)])
      && (r.code != Success ==> Outstanding(r.bus.core) == Outstanding(b.core))
  {
    RxTxNonBlockingChecks(b, slave, txData);
    CompleteKeepsOutstanding(b.core);
    if !TxFull(b.core) && !RxFull(Complete(b.core)) {
      RxTxNonBlockingIssuesAppends(b, slave, txData);
    } else if !TxFull(b.core) {
      CompleteKeepsOutstanding(Complete(b.core));
    }
  }

  /** The success case of RxTxNonBlockingAppends. */
  lemma RxTxNonBlockingIssuesAppends(b: Bus, slave: bv8, txData: bv32)
    requires b.core.Valid() && NoOverflow(b.core) && !TxFull(b.core) && !RxFull(Complete(b.core))
    ensures Outstanding(RxTxNonBlocking(b, slave, txData).bus.core) ==
            Outstanding(b.core) + [b.core.slaveReply(slave as bv32, txData)]
  {
    RxTxNonBlockingIssues(b, slave, txData);
    var c1 := Complete(b.core);
    CompleteKeepsOutstanding(b.core);
    CompleteKeepsOutstanding(c1);
    var c2 := Complete(c1);
    PendingAppend(c2.tx, [Transfer(txData, slave as bv32, true)], c2.slaveReply);
  }

  /** A successful RX read takes the head of the stream; a failed one leaves it alone. */
  lemma GetRxDataPops(b: Bus)
    requires b.core.Valid() && NoOverflow(b.core)
    ensures var r := GetRxData(b);
      && (r.code == Success ==> r.rxData.Some? && [r.rxData.value] + Outstanding(r.bus.core) == Outstanding(b.core))
      && (r.code != Success ==> Outstanding(r.bus.core) == Outstanding(b.core))
  {
    GetRxDataSpec(b);
    CompleteKeepsOutstanding(b.core);
  }

  /** One driver call in a sequence of non-blocking calls. */
  datatype Op = Send(slave: bv8, data: bv32) | Issue(slave: bv8, data: bv32) | Pop

  /** The bus after one or more calls, the replies of the RX/TX calls that succeeded
      and the words the successful RX reads returned, both in call order. */
  datatype Outcome = Outcome(bus: Bus, issued: seq<bv32>, popped: seq<bv32>)

  /** Make one call: a Send is a non-blocking TX, an Issue a non-blocking RX/TX, a Pop an RX read. */
  function Step(b: Bus, op: Op): (r: Outcome)
    requires b.core.Valid()
    ensures r.bus.core.Valid() && SameDevice(b.core, r.bus.core)
    ensures |r.issued| <= (if op.Issue? then 1 else 0)
  {
    match op
    case Send(slave, data) =>
      Outcome(TxNonBlocking(b, slave, data).bus, [], [])
    case Issue(slave, data) =>
      var call := RxTxNonBlocking(b, slave, data);
      Outcome(call.bus, if call.code == Success then [b.core.slaveReply(slave as bv32, data)] else [], [])
    case Pop =>
      var call := GetRxData(b);
      Outcome(call.bus, [], if call.code == Success && call.rxData.Some? then [call.rxData.value] else [])
  }

  /** One call keeps the stream first in, first out: what was outstanding followed by
      the reply issued equals the word read followed by what is outstanding afterwards. */
  lemma StepKeepsOrder(b: Bus, op: Op)
    requires b.core.Valid() && NoOverflow(b.core)
    ensures var r := Step(b, op);
      Outstanding(b.core) + r.issued == r.popped + Outstanding(r.bus.core)
  {
    match op
    case Send(slave, data) =>
      TxNonBlockingKeepsOutstanding(b, slave, data);
    case Issue(slave, data) =>
      RxTxNonBlockingAppends(b, slave, data);
    case Pop =>
      GetRxDataPops(b);
  }

  /** The number of RX/TX calls in ops. */
  function Issues(ops: seq<Op>): (n: nat)
    ensures n <= |ops|
  {
    if ops == [] then 0 else (if ops[0].Issue? then 1 else 0) + Issues(ops[1..])
  }

  /** Make the calls in ops one after the other. */
  function Run(b: Bus, ops: seq<Op>): (r: Outcome)
    requires b.core.Valid()
    ensures r.bus.core.Valid() && SameDevice(b.core, r.bus.core)
    ensures |r.issued| <= Issues(ops)
    decreases |ops|
  {
    if ops == [] then Outcome(b, [], [])
    else
      var first := Step(b, ops[0]);
      var rest := Run(first.bus, ops[1..]);
      Outcome(rest.bus, first.issued + rest.issued, first.popped + rest.popped)
  }

  /** Before every call in ops, made one after the other from b, the stream fits the RX
      FIFO: no reply of the run is ever lost. */
  predicate NeverOverflows(b: Bus, ops: seq<Op>)
    requires b.core.Valid()
    decreases |ops|
  {
    ops == [] || (NoOverflow(b.core) && NeverOverflows(Step(b, ops[0]).bus, ops[1..]))
  }

  /** The RX FIFO is first in, first out across any sequence of non-blocking calls that
      never overflows it: what was outstanding followed by the replies issued equals the
      words read followed by what is still outstanding. */
  lemma {:induction false} FifoOrder(b: Bus, ops: seq<Op>)
    requires b.core.Valid() && NeverOverflows(b, ops)
    ensures var r := Run(b, ops);
      Outstanding(b.core) + r.issued == r.popped + Outstanding(r.bus.core)
    decreases |ops|
  {
    if ops != [] {
      var first := Step(b, ops[0]);
      StepKeepsOrder(b, ops[0]);
      FifoOrder(first.bus, ops[1..]);
      var rest := Run(first.bus, ops[1..]);
      assert Run(b, ops) == Outcome(rest.bus, first.issued + rest.issued, first.popped + rest.popped);
      Chain(Outstanding(b.core), first.issued, rest.issued, first.popped, rest.popped,
            Outstanding(first.bus.core), Outstanding(rest.bus.core));
    }
  }

  /** A run whose RX/TX calls fit the RX FIFO all at once never overflows it. */
  lemma {:induction false} FewIssuesNeverOverflow(b: Bus, ops: seq<Op>)
    requires b.core.Valid() && |Outstanding(b.core)| + Issues(ops) <= b.core.rxDepth
    ensures NeverOverflows(b, ops)
    decreases |ops|
  {
    if ops != [] {
      var first := Step(b, ops[0]);
      StepKeepsOrder(b, ops[0]);
      var o, o1 := Outstanding(b.core), Outstanding(first.bus.core);
      assert |o1| <= |o| + |first.issued|;
      FewIssuesNeverOverflow(first.bus, ops[1..]);
    }
  }

  /** An RX/TX on an idle core with empty FIFOs queues its transfer and owes its reply. */
  lemma IssueOnIdle(b: Bus, slave: bv8, x: bv32)
    requires b.core.Valid() && b.core.tx == [] && b.core.rx == []
    ensures var r := Step(b, Issue(slave, x));
      && r.bus.core.tx == [Transfer(x, slave as bv32, true)] && r.bus.core.rx == []
      && r.issued == [b.core.slaveReply(slave as bv32, x)]
      && Outstanding(r.bus.core) == r.issued
  {
    assert Complete(b.core) == b.core;
    RxTxNonBlockingIssues(b, slave, x);
    var r := Step(b, Issue(slave, x));
    OutstandingOne(r.bus.core);
  }

  /** An empty RX FIFO and a single queued transfer that stores its reply: that reply is the stream. */
  lemma OutstandingOne(c: Core)
    requires |c.tx| == 1 && c.tx[0].storeRx && c.rx == []
    ensures Outstanding(c) == [c.slaveReply(c.tx[0].slave, c.tx[0].data)]
  {
    assert c.tx[1..] == [];
  }

  /** An RX read while the only transfer is still queued finds the RX FIFO empty; its
      STATUS read lets the transfer complete and the reply arrive. */
  lemma PopTooEarly(b: Bus, t: Transfer)
    requires b.core.Valid() && b.core.tx == [t] && t.storeRx && b.core.rx == []
    ensures var r := Step(b, Pop);
      && r.bus.core.tx == [] && r.bus.core.rx == [b.core.slaveReply(t.slave, t.data)]
      && r.popped == [] && |Outstanding(r.bus.core)| == 1
  {
    GetRxDataSpec(b);
  }

  /** An RX read on an idle core holding one word returns it and empties the RX FIFO. */
  lemma PopInTime(b: Bus, w: bv32)
    requires b.core.Valid() && b.core.tx == [] && b.core.rx == [w]
    ensures var r := Step(b, Pop);
      r.bus.core.tx == [] && r.bus.core.rx == [] && r.popped == [w] && Outstanding(r.bus.core) == []
  {
    assert Complete(b.core) == b.core;
    GetRxDataSpec(b);
  }

  /** Runs that never overflow may make more RX/TX calls than the RX FIFO has entries, as
      long as the words are read in time. With an RX FIFO of depth 1: start an RX/TX, read
      once too early and once in time, then do it again. */
  lemma ReadInTimeNeverOverflows(b: Bus, s1: bv8, x1: bv32, s2: bv8, x2: bv32)
    requires b.core.Valid() && b.core.tx == [] && b.core.rx == [] && b.core.rxDepth == 1
    ensures var ops := [Issue(s1, x1), Pop, Pop, Issue(s2, x2), Pop, Pop];
      NeverOverflows(b, ops) && Issues(ops) > b.core.rxDepth
  {
    IssueOnIdle(b, s1, x1);
    var b1 := Step(b, Issue(s1, x1)).bus;
    PopTooEarly(b1, b1.core.tx[0]);
    var b2 := Step(b1, Pop).bus;
    PopInTime(b2, b2.core.rx[0]);
    var b3 := Step(b2, Pop).bus;
    IssueOnIdle(b3, s2, x2);
    var b4 := Step(b3, Issue(s2, x2)).bus;
    PopTooEarly(b4, b4.core.tx[0]);
    var b5 := Step(b4, Pop).bus;
    NeverOverflowsCons(b5, Pop, []);
    NeverOverflowsCons(b4, Pop, [Pop] + []);
    NeverOverflowsCons(b3, Issue(s2, x2), [Pop] + ([Pop] + []));
    var second := [Issue(s2, x2)] + ([Pop] + ([Pop] + []));
    NeverOverflowsCons(b2, Pop, second);
    NeverOverflowsCons(b1, Pop, [Pop] + second);
    NeverOverflowsCons(b, Issue(s1, x1), [Pop] + ([Pop] + second));
    TwoRounds(s1, x1, s2, x2);
  }

  /** The run of ReadInTimeNeverOverflows, call by call, and its two RX/TX calls. */
  lemma TwoRounds(s1: bv8, x1: bv32, s2: bv8, x2: bv32)
    ensures var ops := [Issue(s1, x1), Pop, Pop, Issue(s2, x2), Pop, Pop];
      && ops == [Issue(s1, x1)] + ([Pop] + ([Pop] + ([Issue(s2, x2)] + ([Pop] + ([Pop] + [])))))
      && Issues(ops) == 2
  {
    var ops := [Issue(s1, x1), Pop, Pop, Issue(s2, x2), Pop, Pop];
    assert ops[5..][1..] == [] && ops[4..][1..] == ops[5..] && ops[3..][1..] == ops[4..];
    assert ops[2..][1..] == ops[3..] && ops[1..][1..] == ops[2..];
    assert Issues(ops[5..]) == 0;
    assert Issues(ops[4..]) == 0;
    assert Issues(ops[3..]) == 1;
    assert Issues(ops[2..]) == 1;
    assert Issues(ops[1..]) == 1;
  }

  /** A run that does not overflow before its first call, nor afterwards, never overflows. */
  lemma NeverOverflowsCons(b: Bus, op: Op, rest: seq<Op>)
    requires b.core.Valid() && NoOverflow(b.core) && NeverOverflows(Step(b, op).bus, rest)
    ensures NeverOverflows(b, [op] + rest)
  {
    assert ([op] + rest)[0] == op && ([op] + rest)[1..] == rest;
  }

  /** Two first-in first-out steps make one. */
  lemma Chain(o0: seq<bv32>, i1: seq<bv32>, i2: seq<bv32>, p1: seq<bv32>, p2: seq<bv32>, o1: seq<bv32>, o2: seq<bv32>)
    requires o0 + i1 == p1 + o1 && o1 + i2 == p2 + o2
    ensures o0 + (i1 + i2) == (p1 + p2) + o2
  {
    calc {
      o0 + (i1 + i2);
      (o0 + i1) + i2;
      (p1 + o1) + i2;
      p1 + (o1 + i2);
      p1 + (p2 + o2);
    }
  }

  /** Starting with nothing outstanding, in a run that never overflows the RX FIFO, the
      words read are the replies to the RX/TX calls, in the order the calls were made: a
      prefix of them, and all of them once nothing is outstanding any more. */
  lemma FifoReadsInIssueOrder(b: Bus, ops: seq<Op>)
    requires b.core.Valid() && Outstanding(b.core) == [] && NeverOverflows(b, ops)
    ensures var r := Run(b, ops);
      && r.popped <= r.issued
      && (Outstanding(r.bus.core) == [] ==> r.popped == r.issued)
  {
    FifoOrder(b, ops);
    var r := Run(b, ops);
    assert [] + r.issued == r.issued;
  }

  /** A slave that shifts back the word it receives. */
  function Echo(slave: bv32, data: bv32): bv32 {
    data
  }

  /** The non-blocking RX/TX can overflow the RX FIFO. With an RX FIFO of depth 2 and two
      RX/TX transfers still queued the stream fits exactly, yet a third RX/TX succeeds,
      because at its RX-full test only one reply has arrived. Once the core is idle the
      RX FIFO holds the first two replies and the third is lost. */
  lemma RxTxNonBlockingCanOverflow()
    ensures var c := Core([Transfer(1, 0, true), Transfer(2, 0, true)], 4, [], 2, 0, 1, 0, 0, 0, 0, Echo);
      var r := RxTxNonBlocking(Bus(c, []), 0, 3);
      && c.Valid() && NoOverflow(c)
      && r.code == Success
      && Outstanding(r.bus.core) == [1, 2, 3] && !NoOverflow(r.bus.core)
      && Drain(r.bus.core).rx == [1, 2]
  {
    var c := Core([Transfer(1, 0, true), Transfer(2, 0, true)], 4, [], 2, 0, 1, 0, 0, 0, 0, Echo);
    var c1 := Complete(c);
    assert c1.rx == [1] && c1.tx == [Transfer(2, 0, true)];
    var c2 := Complete(c1);
    assert c2.rx == [1, 2] && c2.tx == [];
    RxTxNonBlockingChecks(Bus(c, []), 0, 3);
    RxTxNonBlockingIssues(Bus(c, []), 0, 3);
    var d := RxTxNonBlocking(Bus(c, []), 0, 3).bus.core;
    assert d.tx == [Transfer(3, 0, true)] && d.rx == [1, 2];
    assert Pending(d.tx, d.slaveReply) == [3];
    assert Drain(Complete(d)) == Complete(d);
  }
}

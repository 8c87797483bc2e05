/** The block producer of anvil's node service and the loop that drives it
    (anvil/src/service.rs). Futures are answered by an oracle: `answer` gives, for the k-th poll of a
    mining future, the number of the finished block, or nothing while it is pending. The backend is
    shared with the rest of the node, so the numbers are the oracle's to choose. */
module NodeService {
  import opened Bytes

  type Tx = nat
  type TxSet = seq<Tx>

  /** A handle to the shared backend. */
  datatype Backend = Backend(id: nat)

  /** What polling a mining future yields: the block's number once it is mined. */
  type Answer = Option<nat>

  datatype MinedBlock = MinedBlock(number: nat, transactions: TxSet)

  /** A future that holds the handle while it mines one block. */
  datatype Mining = Mining(backend: Backend, transactions: TxSet)

  datatype Producer = Producer(idleBackend: Option<Backend>, blockMining: Option<Mining>, queued: seq<TxSet>)

  // ----- one poll of the producer -----

  function StartMining(p: Producer): (q: Producer)
  {
    if p.queued != [] && p.idleBackend.Some? then
      Producer(None, Some(Mining(p.idleBackend.value, p.queued[0])), p.queued[1..])
    else p
  }

  datatype Step = Step(producer: Producer, mined: Option<MinedBlock>)

  function PollNext(p: Producer, answer: Answer): (s: Step)
  {
    var q := StartMining(p);
    if q.blockMining.Some? && answer.Some? then
      var Mining(backend, transactions) := q.blockMining.value;
      Step(Producer(Some(backend), None, q.queued), Some(MinedBlock(answer.value, transactions)))
    else Step(q, None)
  }

  /** Exactly one of the backend and the future is present. */
  predicate Valid(p: Producer) {
    p.idleBackend.Some? <==> p.blockMining.None?
  }

  /** The handle, wherever it is. */
  function Handle(p: Producer): (backend: Backend)
    requires Valid(p)
  {
    if p.idleBackend.Some? then p.idleBackend.value else p.blockMining.value.backend
  }

  /** The sets handed over and not yet mined: the one in flight, then the queue. */
  function Backlog(p: Producer): (b: seq<TxSet>)
  {
    (if p.blockMining.Some? then [p.blockMining.value.transactions] else []) + p.queued
  }

  /** Nothing waits that could be started: a block is being mined or the queue is empty. */
  predicate Settled(p: Producer) {
    p.blockMining.Some? || p.queued == []
  }

  /** The producer is a queue: a poll that finds the future finished takes the oldest set off the
      backlog and returns it with the number answered; any other poll leaves the backlog alone. The
      handle is never lost or replaced. */
  lemma PollNextIsFifo(p: Producer, answer: Answer)
    requires Valid(p)
    ensures var Step(q, mined) := PollNext(p, answer);
            && Valid(q) && Handle(q) == Handle(p)
            && (mined.Some? <==> answer.Some? && Backlog(p) != [])
            && (mined.Some? ==>
                  && mined.value == MinedBlock(answer.value, Backlog(p)[0])
                  && Backlog(q) == Backlog(p)[1..] && q.idleBackend.Some?)
            && (mined.None? ==> Backlog(q) == Backlog(p) && Settled(q))
  {
    var q := StartMining(p);
    assert Backlog(q) == Backlog(p);
  }

  function Feed(p: Producer, transactions: TxSet): (q: Producer)
    ensures Valid(p) ==> Valid(q) && Handle(q) == Handle(p)
    ensures Backlog(q) == Backlog(p) + [transactions]
  {
    p.(queued := p.queued + [transactions])
  }

  // ----- what any amount of feeding and polling keeps -----

  function Sets(blocks: seq<MinedBlock>): (sets: seq<TxSet>)
    ensures |sets| == |blocks|
    ensures forall i :: 0 <= i < |blocks| ==> sets[i] == blocks[i].transactions
  {
    seq(|blocks|, i requires 0 <= i < |blocks| => blocks[i].transactions)
  }

  /** From p to q: the sets fed in line up behind the backlog, the blocks mined meanwhile take sets
      off its front, and the handle stays the same. */
  ghost predicate Advances(p: Producer, fed: seq<TxSet>, q: Producer, mined: seq<MinedBlock>) {
    && Valid(p) && Valid(q) && Handle(q) == Handle(p)
    && Sets(mined) + Backlog(q) == Backlog(p) + fed
  }

  lemma AdvancesIdle(p: Producer, q: Producer)
    requires Valid(p) && Valid(q) && Handle(q) == Handle(p) && Backlog(q) == Backlog(p)
    ensures Advances(p, [], q, [])
  {
    assert Sets([]) == [];
    assert Backlog(p) + [] == Backlog(p);
  }

  lemma AdvancesCompose(p: Producer, fed1: seq<TxSet>, q: Producer, mined1: seq<MinedBlock>,
                        fed2: seq<TxSet>, r: Producer, mined2: seq<MinedBlock>)
    requires Advances(p, fed1, q, mined1) && Advances(q, fed2, r, mined2)
    ensures Advances(p, fed1 + fed2, r, mined1 + mined2)
  {
    var s1, s2 := Sets(mined1), Sets(mined2);
    assert Sets(mined1 + mined2) == s1 + s2;
    assert (s1 + s2) + Backlog(r) == s1 + (s2 + Backlog(r));
    assert s1 + (Backlog(q) + fed2) == (s1 + Backlog(q)) + fed2;
    assert (Backlog(p) + fed1) + fed2 == Backlog(p) + (fed1 + fed2);
  }

  lemma FeedAdvances(p: Producer, transactions: TxSet)
    requires Valid(p)
    ensures Advances(p, [transactions], Feed(p, transactions), [])
  {
    assert Sets([]) == [];
  }

  lemma AdvancesThenFeed(p: Producer, q: Producer, mined: seq<MinedBlock>, transactions: TxSet)
    requires Advances(p, [], q, mined)
    ensures Advances(p, [transactions], Feed(q, transactions), mined)
  {
    FeedAdvances(q, transactions);
    AdvancesCompose(p, [], q, mined, [transactions], Feed(q, transactions), []);
    assert mined + [] == mined;
  }

  lemma PollAdvances(p: Producer, answer: Answer)
    requires Valid(p)
    ensures var Step(q, mined) := PollNext(p, answer);
            Advances(p, [], q, if mined.Some? then [mined.value] else [])
  {
    PollNextIsFifo(p, answer);
    var Step(q, mined) := PollNext(p, answer);
    if mined.Some? {
      assert Sets([mined.value]) == [Backlog(p)[0]];
      assert Backlog(p) + [] == Backlog(p);
    } else {
      AdvancesIdle(p, q);
    }
  }

  // ----- every run of the producer -----

  datatype Event = Fed(transactions: TxSet) | Polled(answer: Answer)

  datatype Run = Run(producer: Producer, mined: seq<MinedBlock>)

  function RunProducer(p: Producer, events: seq<Event>): (r: Run)
    decreases |events|
  {
    if events == [] then Run(p, [])
    else
      var before := RunProducer(p, events[..|events| - 1]);
      match events[|events| - 1]
      case Fed(txs) => Run(Feed(before.producer, txs), before.mined)
      case Polled(answer) =>
        var s := PollNext(before.producer, answer);
        Run(s.producer, before.mined + if s.mined.Some? then [s.mined.value] else [])
  }

  function FedSets(events: seq<Event>): (sets: seq<TxSet>)
  {
    if events == [] then []
    else
      var last := events[|events| - 1];
      FedSets(events[..|events| - 1]) + if last.Fed? then [last.transactions] else []
  }

  /** In every run exactly one of backend and future is present, with the same backend throughout,
      and the sets fed in are the sets mined, then the one in flight, then the queue: none lost,
      none repeated, none overtaken. */
  lemma {:induction false} RunConserves(p: Producer, events: seq<Event>)
    requires Valid(p)
    ensures var r := RunProducer(p, events);
            Advances(p, FedSets(events), r.producer, r.mined)
    decreases |events|
  {
    if events == [] {
      AdvancesIdle(p, p);
    } else {
      var init := events[..|events| - 1];
      RunConserves(p, init);
      var before := RunProducer(p, init);
      match events[|events| - 1] {
        case Fed(txs) =>
          FeedAdvances(before.producer, txs);
          AdvancesCompose(p, FedSets(init), before.producer, before.mined,
                          [txs], Feed(before.producer, txs), []);
          assert before.mined + [] == before.mined;
        case Polled(answer) =>
          PollAdvances(before.producer, answer);
          var Step(q, mined) := PollNext(before.producer, answer);
          AdvancesCompose(p, FedSets(init), before.producer, before.mined,
                          [], q, if mined.Some? then [mined.value] else []);
      }
    }
  }

  // ----- one poll of the node -----

  /** The producer after polling it, the blocks it returned, and how often a mining future has
      been polled. */
  datatype Drive = Drive(producer: Producer, mined: seq<MinedBlock>, polls: nat)

  predicate WillPollFuture(p: Producer) {
    StartMining(p).blockMining.Some?
  }

  /** Polls the producer until it returns no block. */
  function Drain(p: Producer, answers: nat -> Answer, polls: nat): (d: Drive)
    requires Valid(p)
    decreases |Backlog(p)|
  {
    PollNextIsFifo(p, answers(polls));
    var s := PollNext(p, answers(polls));
    var n := if WillPollFuture(p) then polls + 1 else polls;
    if s.mined.None? then Drive(s.producer, [], n)
    else
      var d := Drain(s.producer, answers, n);
      Drive(d.producer, [s.mined.value] + d.mined, d.polls)
  }

  function BlockNumbers(blocks: seq<MinedBlock>): (numbers: seq<nat>)
    ensures |numbers| == |blocks|
    ensures forall i :: 0 <= i < |blocks| ==> numbers[i] == blocks[i].number
  {
    seq(|blocks|, i requires 0 <= i < |blocks| => blocks[i].number)
  }

  /** The block numbers answered by the polls from `first` up to `end`. */
  ghost function Answered(answers: nat -> Answer, first: nat, end: nat): (numbers: seq<nat>)
    requires first <= end
    decreases end
  {
    if first == end then []
    else Answered(answers, first, end - 1) + if answers(end - 1).Some? then [answers(end - 1).value] else []
  }

  lemma {:induction false} AnsweredConcat(answers: nat -> Answer, a: nat, b: nat, c: nat)
    requires a <= b <= c
    ensures Answered(answers, a, c) == Answered(answers, a, b) + Answered(answers, b, c)
    decreases c
  {
    if b < c {
      AnsweredConcat(answers, a, b, c - 1);
    }
  }

  lemma NumbersConcat(answers: nat -> Answer, a: nat, b: nat, c: nat, mined1: seq<MinedBlock>, mined2: seq<MinedBlock>)
    requires a <= b <= c
    requires BlockNumbers(mined1) == Answered(answers, a, b) && BlockNumbers(mined2) == Answered(answers, b, c)
    ensures BlockNumbers(mined1 + mined2) == Answered(answers, a, c)
  {
    AnsweredConcat(answers, a, b, c);
    assert BlockNumbers(mined1 + mined2) == BlockNumbers(mined1) + BlockNumbers(mined2);
  }

  lemma PollIsAnswered(p: Producer, answers: nat -> Answer, polls: nat)
    requires Valid(p)
    ensures var s := PollNext(p, answers(polls));
            var n := if WillPollFuture(p) then polls + 1 else polls;
            BlockNumbers(if s.mined.Some? then [s.mined.value] else []) == Answered(answers, polls, n)
  {
    PollNextIsFifo(p, answers(polls));
    assert Answered(answers, polls, polls) == [];
  }

  /** Everything is accounted for, the blocks carry the numbers the polls answered, in order, and at the
      end the producer is idle with an empty backlog, or holds a future that was polled last and was
      pending. */
  ghost predicate Drives(p: Producer, fed: seq<TxSet>, answers: nat -> Answer, polls: nat, d: Drive) {
    && Advances(p, fed, d.producer, d.mined)
    && polls <= d.polls && BlockNumbers(d.mined) == Answered(answers, polls, d.polls)
    && Settled(d.producer)
    && (d.producer.blockMining.Some? ==> polls < d.polls && answers(d.polls - 1).None?)
  }

  lemma DrivesCompose(p: Producer, fed1: seq<TxSet>, q: Producer, mined1: seq<MinedBlock>, fed2: seq<TxSet>,
                      answers: nat -> Answer, polls: nat, n: nat, d: Drive)
    requires Advances(p, fed1, q, mined1)
    requires polls <= n && BlockNumbers(mined1) == Answered(answers, polls, n)
    requires Drives(q, fed2, answers, n, d)
    ensures Drives(p, fed1 + fed2, answers, polls, Drive(d.producer, mined1 + d.mined, d.polls))
  {
    NumbersConcat(answers, polls, n, d.polls, mined1, d.mined);
    AdvancesCompose(p, fed1, q, mined1, fed2, d.producer, d.mined);
  }

  lemma {:induction false} DrainDrives(p: Producer, answers: nat -> Answer, polls: nat)
    requires Valid(p)
    ensures Drives(p, [], answers, polls, Drain(p, answers, polls))
    decreases |Backlog(p)|
  {
    PollNextIsFifo(p, answers(polls));
    PollAdvances(p, answers(polls));
    PollIsAnswered(p, answers, polls);
    var s := PollNext(p, answers(polls));
    if s.mined.Some? {
      var n := if WillPollFuture(p) then polls + 1 else polls;
      DrainDrives(s.producer, answers, n);
      var d := Drain(s.producer, answers, n);
      DrivesCompose(p, [], s.producer, [s.mined.value], [], answers, polls, n, d);
    }
  }

  lemma DrainKeepsValid(p: Producer, answers: nat -> Answer, polls: nat)
    requires Valid(p)
    ensures Valid(Drain(p, answers, polls).producer)
  {
    DrainDrives(p, answers, polls);
  }

  /** Drains, then feeds the producer whatever the miner has, until the miner is pending. */
  function PollNode(p: Producer, miner: seq<TxSet>, answers: nat -> Answer, polls: nat): (d: Drive)
    requires Valid(p)
    decreases |miner|
  {
    var d := Drain(p, answers, polls);
    DrainKeepsValid(p, answers, polls);
    if miner == [] then d
    else
      var rest := PollNode(Feed(d.producer, miner[0]), miner[1..], answers, d.polls);
      Drive(rest.producer, d.mined + rest.mined, rest.polls)
  }

  /** Whenever the node's poll returns, the backlog is empty or a mining future is in flight that
      was polled during this call and answered pending; and the blocks mined meanwhile account
      for everything the miner reported. */
  lemma {:induction false} PollNodeDrives(p: Producer, miner: seq<TxSet>, answers: nat -> Answer, polls: nat)
    requires Valid(p)
    ensures Drives(p, miner, answers, polls, PollNode(p, miner, answers, polls))
    decreases |miner|
  {
    DrainDrives(p, answers, polls);
    var d := Drain(p, answers, polls);
    if miner != [] {
      var fed := Feed(d.producer, miner[0]);
      AdvancesThenFeed(p, d.producer, d.mined, miner[0]);
      PollNodeDrives(fed, miner[1..], answers, d.polls);
      var rest := PollNode(fed, miner[1..], answers, d.polls);
      DrivesCompose(p, [miner[0]], fed, d.mined, miner[1..], answers, polls, d.polls, rest);
      assert [miner[0]] + miner[1..] == miner;
    }
  }

  // ----- the objects that are updated in place -----

  class BlockProducer {
    var idleBackend: Option<Backend>
    var blockMining: Option<Mining>
    var queued: seq<TxSet>

    ghost function View(): Producer
      reads this
    {
      Producer(idleBackend, blockMining, queued)
    }

    constructor (backend: Backend)
      ensures View() == Producer(Some(backend), None, [])
    {
      idleBackend, blockMining, queued := Some(backend), None, [];
    }

    /** Takes the backend to start a block if one is waiting, then takes the future to poll it;
        whichever was taken is put back before returning. */
    method Poll(answer: Answer) returns (mined: Option<MinedBlock>)
      modifies this
      ensures Step(View(), mined) == PollNext(old(View()), answer)
    {
      mined := None;
      if queued != [] {
        var idle := idleBackend;
        if idle.Some? {
          idleBackend := None;
          var transactions := queued[0];
          queued := queued[1..];
          blockMining := Some(Mining(idle.value, transactions));
        }
      }
      var taken := blockMining;
      blockMining := None;
      if taken.Some? {
        if answer.Some? {
          idleBackend := Some(taken.value.backend);
          mined := Some(MinedBlock(answer.value, taken.value.transactions));
        } else {
          blockMining := taken;
        }
      }
    }
  }

  class Node {
    const producer: BlockProducer
    /** The mined blocks the pool was told about, in order. */
    var notified: seq<MinedBlock>

    constructor (backend: Backend)
      ensures fresh(producer) && notified == []
      ensures producer.View() == Producer(Some(backend), None, [])
    {
      producer := new BlockProducer(backend);
      notified := [];
    }

    /** The inner loop: every block the producer returns is reported to the pool. */
    method DrainProducer(answers: nat -> Answer, polls: nat) returns (n: nat)
      requires Valid(producer.View())
      modifies this, producer
      ensures var d := Drain(old(producer.View()), answers, polls);
              producer.View() == d.producer && notified == old(notified) + d.mined && n == d.polls
    {
      ghost var goal := Drain(producer.View(), answers, polls);
      n := polls;
      while true
        invariant Valid(producer.View())
        invariant Rejoins(goal, old(notified), notified, Drain(producer.View(), answers, n))
        decreases |Backlog(producer.View())|
      {
        RejoinAfterPoll(goal, old(notified), notified, producer.View(), answers, n);
        var k := n;
        if producer.blockMining.Some? || (producer.queued != [] && producer.idleBackend.Some?) {
          n := n + 1;
        }
        var mined := producer.Poll(answers(k));
        if mined.None? { break; }
        notified := notified + [mined.value];
      }
    }

    /** One poll of the service: the pool hears of each block mined, once and in order. */
    method Poll(miner: seq<TxSet>, answers: nat -> Answer)
      requires Valid(producer.View())
      modifies this, producer
      ensures var d := PollNode(old(producer.View()), miner, answers, 0);
              && producer.View() == d.producer && notified == old(notified) + d.mined
              && Drives(old(producer.View()), miner, answers, 0, d)
    {
      ghost var goal := PollNode(producer.View(), miner, answers, 0);
      PollNodeDrives(producer.View(), miner, answers, 0);
      assert miner[0..] == miner;
      var polls, i := 0, 0;
      while true
        invariant 0 <= i <= |miner| && 0 <= polls && Valid(producer.View())
        invariant Rejoins(goal, old(notified), notified, PollNode(producer.View(), miner[i..], answers, polls))
        decreases |miner| - i
      {
        RejoinAfterDrain(goal, old(notified), notified, producer.View(), miner[i..], answers, polls);
        polls := DrainProducer(answers, polls);
        if i == |miner| { break; }
        producer.queued := producer.queued + [miner[i]];
        i := i + 1;
      }
    }
  }

  lemma RejoinAfterPoll(goal: Drive, before: seq<MinedBlock>, now: seq<MinedBlock>,
                        p: Producer, answers: nat -> Answer, polls: nat)
    requires Valid(p) && Rejoins(goal, before, now, Drain(p, answers, polls))
    ensures var s := PollNext(p, answers(polls));
            var n := if WillPollFuture(p) then polls + 1 else polls;
            && Valid(s.producer)
            && (s.mined.None? ==> goal == Drive(s.producer, goal.mined, n) && before + goal.mined == now)
            && (s.mined.Some? ==>
                  && |Backlog(s.producer)| < |Backlog(p)|
                  && Rejoins(goal, before, now + [s.mined.value], Drain(s.producer, answers, n)))
  {
    PollNextIsFifo(p, answers(polls));
    var s := PollNext(p, answers(polls));
    if s.mined.Some? {
      var d := Drain(s.producer, answers, polls + 1);
      assert now + ([s.mined.value] + d.mined) == (now + [s.mined.value]) + d.mined;
    } else {
      assert now + [] == now;
    }
  }

  lemma RejoinAfterDrain(goal: Drive, before: seq<MinedBlock>, now: seq<MinedBlock>,
                         p: Producer, miner: seq<TxSet>, answers: nat -> Answer, polls: nat)
    requires Valid(p) && Rejoins(goal, before, now, PollNode(p, miner, answers, polls))
    ensures var d := Drain(p, answers, polls);
            && Valid(d.producer)
            && (miner == [] ==> goal.producer == d.producer && before + goal.mined == now + d.mined)
            && (miner != [] ==>
                  Rejoins(goal, before, now + d.mined,
                          PollNode(Feed(d.producer, miner[0]), miner[1..], answers, d.polls)))
  {
    DrainKeepsValid(p, answers, polls);
    var d := Drain(p, answers, polls);
    if miner != [] {
      var rest := PollNode(Feed(d.producer, miner[0]), miner[1..], answers, d.polls);
      assert now + (d.mined + rest.mined) == (now + d.mined) + rest.mined;
    }
  }

  /** What is still to be done completes what was done so far to the goal. */
  ghost predicate Rejoins(goal: Drive, before: seq<MinedBlock>, now: seq<MinedBlock>, rest: Drive) {
    goal.producer == rest.producer && goal.polls == rest.polls && before + goal.mined == now + rest.mined
  }

  // ----- every run of the node -----

  /** One call of the node's poll: what the miner reports during it and how futures answer. */
  datatype NodeCall = NodeCall(miner: seq<TxSet>, answers: nat -> Answer)

  function RunNode(p: Producer, calls: seq<NodeCall>): (r: Run)
    requires Valid(p)
    ensures Valid(r.producer)
    decreases |calls|
  {
    if calls == [] then Run(p, [])
    else
      var before := RunNode(p, calls[..|calls| - 1]);
      var call := calls[|calls| - 1];
      PollNodeDrives(before.producer, call.miner, call.answers, 0);
      var d := PollNode(before.producer, call.miner, call.answers, 0);
      Run(d.producer, before.mined + d.mined)
  }

  function Reported(calls: seq<NodeCall>): (sets: seq<TxSet>)
  {
    if calls == [] then [] else Reported(calls[..|calls| - 1]) + calls[|calls| - 1].miner
  }

  /** Over any sequence of polls of a new node, what the pool was told about and what is still
      waiting is everything the miner reported, in the order it was reported; and between polls
      nothing waits unless a block is being mined. */
  lemma {:induction false} NodeRunConserves(backend: Backend, calls: seq<NodeCall>)
    ensures var p := Producer(Some(backend), None, []);
            var r := RunNode(p, calls);
            Advances(p, Reported(calls), r.producer, r.mined) && Settled(r.producer)
    decreases |calls|
  {
    var p := Producer(Some(backend), None, []);
    if calls == [] {
      AdvancesIdle(p, p);
    } else {
      var init := calls[..|calls| - 1];
      NodeRunConserves(backend, init);
      var before := RunNode(p, init);
      var call := calls[|calls| - 1];
      PollNodeDrives(before.producer, call.miner, call.answers, 0);
      var d := PollNode(before.producer, call.miner, call.answers, 0);
      AdvancesCompose(p, Reported(init), before.producer, before.mined, call.miner, d.producer, d.mined);
    }
  }
}

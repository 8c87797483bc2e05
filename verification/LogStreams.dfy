/** How the matching logs of new blocks reach a client: pushed one at a time by a subscription
    (anvil/src/pubsub.rs) or collected by polling a filter (anvil/src/filter.rs). Both read block
    notifications from their own channel; the block store does not change. */
module LogStreams {
  import opened Bytes
  import opened BlockLogs

  datatype Store = Store(block: Hash -> Option<Block>, receipts: Hash -> Option<seq<Receipt>>)

  predicate Known(store: Store, hash: Hash) {
    store.block(hash).Some? && store.receipts(hash).Some?
  }

  ghost predicate WellFormed(store: Store) {
    forall hash: Hash :: Known(store, hash) ==> Fits(store.block(hash).value, store.receipts(hash).value)
  }

  lemma CancelRight<T>(a: seq<T>, b: seq<T>, c: seq<T>)
    requires a + c == b + c
    ensures a == b
  {
    assert |a| == |b|;
    assert a == (a + c)[..|a|] && b == (b + c)[..|b|];
  }

  /** All that delivery depends on: which blocks are known, and the matching logs of each. */
  datatype Source = Source(known: Hash -> bool, matching: Hash -> seq<BlockLog>)

  function SourceOf(store: Store, params: Params): (src: Source)
  {
    Source((hash: Hash) => Known(store, hash),
           (hash: Hash) =>
             if Known(store, hash) && Fits(store.block(hash).value, store.receipts(hash).value)
             then Matching(store.block(hash).value, store.receipts(hash).value, params) else [])
  }

  /** The logs one notification stands for; a block the store does not know has none. */
  function LogsOf(src: Source, hash: Hash): (logs: seq<BlockLog>)
  {
    if src.known(hash) then src.matching(hash) else []
  }

  function Delivered(src: Source, hashes: seq<Hash>): (logs: seq<BlockLog>)
  {
    if hashes == [] then []
    else Delivered(src, hashes[..|hashes| - 1]) + LogsOf(src, hashes[|hashes| - 1])
  }

  lemma {:induction false} DeliveredConcat(src: Source, a: seq<Hash>, b: seq<Hash>)
    ensures Delivered(src, a + b) == Delivered(src, a) + Delivered(src, b)
    decreases |b|
  {
    if b == [] {
      assert a + b == a;
    } else {
      var init := b[..|b| - 1];
      DeliveredConcat(src, a, init);
      assert (a + b)[..|a + b| - 1] == a + init;
    }
  }

  lemma DeliveredCons(src: Source, hashes: seq<Hash>)
    requires hashes != []
    ensures Delivered(src, hashes) ==
            LogsOf(src, hashes[0]) + Delivered(src, hashes[1..])
  {
    assert hashes == [hashes[0]] + hashes[1..];
    assert Delivered(src, [hashes[0]]) == LogsOf(src, hashes[0]);
    DeliveredConcat(src, [hashes[0]], hashes[1..]);
  }

  /** Notifications sent and not yet received; closed once the sender is gone. */
  datatype Channel = Channel(pending: seq<Hash>, closed: bool)

  // ----- one poll of a subscription -----

  datatype Subscription = Subscription(queued: seq<BlockLog>, blocks: Channel)

  datatype Poll = Ready(log: BlockLog) | Ended | Pending

  datatype Polled = Polled(next: Subscription, result: Poll)

  function PollSubscription(src: Source, s: Subscription): (p: Polled)
    decreases |s.blocks.pending|
  {
    var pending := s.blocks.pending;
    if s.queued != [] then Polled(s.(queued := s.queued[1..]), Ready(s.queued[0]))
    else if pending == [] then Polled(s, if s.blocks.closed then Ended else Pending)
    else
      var rest := s.blocks.(pending := pending[1..]);
      if !src.known(pending[0]) then Polled(Subscription([], rest), Pending)
      else
        var logs := LogsOf(src, pending[0]);
        if logs == [] then PollSubscription(src, Subscription([], rest))
        else Polled(Subscription(logs[1..], rest), Ready(logs[0]))
  }

  function Emitted(result: Poll): (logs: seq<BlockLog>)
  {
    if result.Ready? then [result.log] else []
  }

  /** What is still to come out of a subscription if nothing more is sent. */
  function Owed(src: Source, s: Subscription): (logs: seq<BlockLog>)
  {
    s.queued + Delivered(src, s.blocks.pending)
  }

  /** Consumed notifications are a prefix of those sent, the channel holds the rest. */
  predicate Split(sent: seq<Hash>, pending: seq<Hash>) {
    |pending| <= |sent| && sent[|sent| - |pending|..] == pending
  }

  function Consumed(sent: seq<Hash>, pending: seq<Hash>): (hashes: seq<Hash>)
    requires Split(sent, pending)
    ensures sent == hashes + pending
  {
    sent[..|sent| - |pending|]
  }

  lemma {:induction false} PollTakesFromFront(src: Source, s: Subscription)
    ensures var p := PollSubscription(src, s);
            && Split(s.blocks.pending, p.next.blocks.pending) && p.next.blocks.closed == s.blocks.closed
            && (p.result.Ended? ==> s.blocks.closed && p.next.blocks.pending == [])
    decreases |s.blocks.pending|
  {
    var pending := s.blocks.pending;
    if s.queued == [] && pending != [] && src.known(pending[0]) && src.matching(pending[0]) == [] {
      var rest := Subscription([], s.blocks.(pending := pending[1..]));
      PollTakesFromFront(src, rest);
      var left := PollSubscription(src, rest).next.blocks.pending;
      assert pending[1..][|pending| - 1 - |left|..] == pending[|pending| - |left|..];
    }
  }

  /** A poll emits the front of what is owed and owes the rest. */
  lemma {:induction false} PollPaysInOrder(src: Source, s: Subscription)
    ensures var p := PollSubscription(src, s);
            Emitted(p.result) + Owed(src, p.next) == Owed(src, s)
    decreases |s.blocks.pending|
  {
    var pending := s.blocks.pending;
    if s.queued != [] {
      Assoc([s.queued[0]], s.queued[1..], Delivered(src, pending));
      assert s.queued == [s.queued[0]] + s.queued[1..];
    } else if pending == [] {
      NothingBefore(Owed(src, s));
    } else {
      DeliveredCons(src, pending);
      NothingBefore(Delivered(src, pending));
      NothingBefore(Delivered(src, pending[1..]));
      var logs := LogsOf(src, pending[0]);
      if logs != [] {
        Assoc([logs[0]], logs[1..], Delivered(src, pending[1..]));
        assert logs == [logs[0]] + logs[1..];
      } else if src.known(pending[0]) {
        PollPaysInOrder(src, Subscription([], s.blocks.(pending := pending[1..])));
      }
    }
  }

  lemma NothingBefore<T>(a: seq<T>)
    ensures [] + a == a
  {
  }

  /** A poll leaves notifications unread while it reports "pending" exactly when, behind blocks
      without matching logs, it meets a block the store does not know that is not the last one. */
  lemma {:induction false} StallsIff(src: Source, s: Subscription)
    ensures var p := PollSubscription(src, s);
            p.result.Pending? && p.next.blocks.pending != [] <==>
            s.queued == [] && exists i :: StallPoint(src, s.blocks.pending, i)
    decreases |s.blocks.pending|
  {
    var pending := s.blocks.pending;
    if s.queued == [] && pending != [] {
      if !src.known(pending[0]) {
        assert |pending| > 1 ==> StallPoint(src, pending, 0);
      } else if LogsOf(src, pending[0]) == [] {
        var rest := pending[1..];
        StallsIff(src, Subscription([], s.blocks.(pending := rest)));
        assert forall i :: StallPoint(src, rest, i) ==> StallPoint(src, pending, i + 1);
        assert forall i :: StallPoint(src, pending, i) ==> i > 0 && StallPoint(src, rest, i - 1);
      }
    }
  }

  predicate StallPoint(src: Source, pending: seq<Hash>, i: int)
  {
    && 0 <= i < |pending| - 1 && !src.known(pending[i])
    && forall j :: 0 <= j < i ==> src.known(pending[j]) && LogsOf(src, pending[j]) == []
  }

  /** The notifications before i stand for blocks without matching logs. */
  predicate SilentBefore(src: Source, pending: seq<Hash>, i: nat)
    requires i <= |pending|
  {
    forall j :: 0 <= j < i ==> src.known(pending[j]) && src.matching(pending[j]) == []
  }

  predicate FirstLogsAt(src: Source, pending: seq<Hash>, i: int) {
    && 0 <= i < |pending| && src.known(pending[i]) && src.matching(pending[i]) != []
    && SilentBefore(src, pending, i)
  }

  /** A poll is ready exactly when a log is queued or is found behind silent blocks, and it ends
      exactly when there is nothing but silent blocks on a closed channel. */
  lemma {:induction false} ReadyIff(src: Source, s: Subscription)
    ensures PollSubscription(src, s).result.Ready? <==>
            s.queued != [] || exists i :: FirstLogsAt(src, s.blocks.pending, i)
    ensures PollSubscription(src, s).result.Ended? <==>
            s.queued == [] && s.blocks.closed && SilentBefore(src, s.blocks.pending, |s.blocks.pending|)
    decreases |s.blocks.pending|
  {
    var pending := s.blocks.pending;
    if s.queued == [] && pending != [] {
      if src.known(pending[0]) && src.matching(pending[0]) == [] {
        var rest := pending[1..];
        ReadyIff(src, Subscription([], s.blocks.(pending := rest)));
        SilentHead(src, pending);
        assert forall i :: FirstLogsAt(src, rest, i) ==> FirstLogsAt(src, pending, i + 1);
        assert forall i :: FirstLogsAt(src, pending, i) ==> i > 0 && FirstLogsAt(src, rest, i - 1);
      } else if src.known(pending[0]) {
        assert FirstLogsAt(src, pending, 0);
      }
    }
  }

  lemma SilentHead(src: Source, pending: seq<Hash>)
    requires pending != [] && src.known(pending[0]) && src.matching(pending[0]) == []
    ensures forall i :: 0 < i <= |pending| ==>
              (SilentBefore(src, pending, i) <==> SilentBefore(src, pending[1..], i - 1))
  {
    forall i | 0 < i <= |pending|
      ensures SilentBefore(src, pending, i) <==> SilentBefore(src, pending[1..], i - 1)
    {
      assert forall j :: 0 <= j < |pending| - 1 ==> pending[1..][j] == pending[j + 1];
      if SilentBefore(src, pending[1..], i - 1) {
        forall j | 0 <= j < i ensures src.known(pending[j]) && src.matching(pending[j]) == [] {
          if j > 0 { assert pending[j] == pending[1..][j - 1]; }
        }
      }
    }
  }

  /** With a store that knows every block notified, "pending" means the channel was read dry. */
  lemma PendingIsDrained(src: Source, s: Subscription)
    requires forall i :: 0 <= i < |s.blocks.pending| ==> src.known(s.blocks.pending[i])
    requires PollSubscription(src, s).result.Pending?
    ensures PollSubscription(src, s).next.blocks.pending == []
  {
    StallsIff(src, s);
  }

  // ----- every run -----

  datatype Event = Notify(hash: Hash) | DoPoll | Close

  function Send(c: Channel, e: Event): (d: Channel)
  {
    match e
    case Notify(hash) => if c.closed then c else c.(pending := c.pending + [hash])
    case Close => c.(closed := true)
    case DoPoll => c
  }

  function RunChannel(events: seq<Event>): (r: (seq<Hash>, bool))
  {
    if events == [] then ([], false)
    else
      var (sent, closed) := RunChannel(events[..|events| - 1]);
      match events[|events| - 1]
      case Notify(hash) => (if closed then sent else sent + [hash], closed)
      case Close => (sent, true)
      case DoPoll => (sent, closed)
  }

  /** All notifications accepted by the channel during a run. */
  function Sent(events: seq<Event>): (hashes: seq<Hash>)
  {
    RunChannel(events).0
  }

  datatype SubRun = SubRun(sub: Subscription, emitted: seq<BlockLog>)

  function RunSubscription(src: Source, events: seq<Event>): (r: SubRun)
  {
    if events == [] then SubRun(Subscription([], Channel([], false)), [])
    else
      var before := RunSubscription(src, events[..|events| - 1]);
      var last := events[|events| - 1];
      if last.DoPoll? then
        var p := PollSubscription(src, before.sub);
        SubRun(p.next, before.emitted + Emitted(p.result))
      else SubRun(before.sub.(blocks := Send(before.sub.blocks, last)), before.emitted)
  }

  datatype Filter = Filter(historic: Option<seq<BlockLog>>, blocks: Channel)

  datatype FilterRun = FilterRun(filter: Filter, results: seq<BlockLog>)

  /** All logs since the last poll: the historic ones the first time, then those of every block
      notified. */
  function PollFilter(src: Source, f: Filter): (r: FilterRun)
  {
    var historic := if f.historic.Some? then f.historic.value else [];
    FilterRun(Filter(None, f.blocks.(pending := [])), historic + Delivered(src, f.blocks.pending))
  }

  function RunFilter(src: Source, historic: seq<BlockLog>, events: seq<Event>): (r: FilterRun)
  {
    if events == [] then FilterRun(Filter(Some(historic), Channel([], false)), [])
    else
      var before := RunFilter(src, historic, events[..|events| - 1]);
      var last := events[|events| - 1];
      if last.DoPoll? then
        var p := PollFilter(src, before.filter);
        FilterRun(p.filter, before.results + p.results)
      else FilterRun(before.filter.(blocks := Send(before.filter.blocks, last)), before.results)
  }

  lemma {:induction false} SubscriptionChannel(src: Source, events: seq<Event>)
    ensures var r := RunSubscription(src, events);
            && r.sub.blocks.closed == RunChannel(events).1
            && Split(Sent(events), r.sub.blocks.pending)
  {
    if events != [] {
      var init := events[..|events| - 1];
      SubscriptionChannel(src, init);
      var sub := RunSubscription(src, init).sub;
      match events[|events| - 1] {
        case Notify(hash) => SplitSnoc(Sent(init), sub.blocks.pending, hash);
        case Close =>
        case DoPoll =>
          PollTakesFromFront(src, sub);
          SplitTransitive(Sent(init), sub.blocks.pending, PollSubscription(src, sub).next.blocks.pending);
      }
    }
  }

  lemma SplitSnoc(sent: seq<Hash>, pending: seq<Hash>, hash: Hash)
    requires Split(sent, pending)
    ensures Split(sent + [hash], pending + [hash])
  {
  }

  lemma SplitTransitive(sent: seq<Hash>, pending: seq<Hash>, left: seq<Hash>)
    requires Split(sent, pending) && Split(pending, left)
    ensures Split(sent, left)
  {
    assert sent[|sent| - |pending|..][|pending| - |left|..] == sent[|sent| - |left|..];
  }

  /** Whatever the schedule, what was emitted and what is still owed is everything sent. */
  lemma {:induction false} SubscriptionOwes(src: Source, events: seq<Event>)
    ensures var r := RunSubscription(src, events);
            r.emitted + Owed(src, r.sub) == Delivered(src, Sent(events))
  {
    if events != [] {
      var init := events[..|events| - 1];
      SubscriptionOwes(src, init);
      SubscriptionChannel(src, init);
      var before := RunSubscription(src, init);
      match events[|events| - 1] {
        case Notify(hash) =>
          if !before.sub.blocks.closed { OwedSnoc(src, before.emitted, before.sub, Sent(init), hash); }
        case Close =>
        case DoPoll =>
          PollPaysInOrder(src, before.sub);
          var p := PollSubscription(src, before.sub);
          Assoc(before.emitted, Emitted(p.result), Owed(src, p.next));
      }
    }
  }

  lemma DeliveredSnoc(src: Source, hashes: seq<Hash>, hash: Hash)
    ensures Delivered(src, hashes + [hash]) == Delivered(src, hashes) + LogsOf(src, hash)
  {
    assert (hashes + [hash])[..|hashes|] == hashes;
  }

  lemma OwedSnoc(src: Source, emitted: seq<BlockLog>, s: Subscription, sent: seq<Hash>, hash: Hash)
    requires emitted + Owed(src, s) == Delivered(src, sent)
    ensures emitted + Owed(src, s.(blocks := s.blocks.(pending := s.blocks.pending + [hash]))) ==
            Delivered(src, sent + [hash])
  {
    DeliveredSnoc(src, sent, hash);
    DeliveredSnoc(src, s.blocks.pending, hash);
    Assoc(s.queued, Delivered(src, s.blocks.pending), LogsOf(src, hash));
    Assoc(emitted, Owed(src, s), LogsOf(src, hash));
  }

  /** In every schedule of notifications and polls, the logs a subscription has emitted followed by
      its queue are the matching logs of the notifications it consumed, in order. */
  lemma SubscriptionRun(src: Source, events: seq<Event>)
    ensures var r := RunSubscription(src, events);
            && Split(Sent(events), r.sub.blocks.pending)
            && r.emitted + r.sub.queued == Delivered(src, Consumed(Sent(events), r.sub.blocks.pending))
  {
    SubscriptionChannel(src, events);
    SubscriptionOwes(src, events);
    var r := RunSubscription(src, events);
    var consumed, pending := Consumed(Sent(events), r.sub.blocks.pending), r.sub.blocks.pending;
    DeliveredConcat(src, consumed, pending);
    Assoc(r.emitted, r.sub.queued, Delivered(src, pending));
    CancelRight(r.emitted + r.sub.queued, Delivered(src, consumed), Delivered(src, pending));
  }

  lemma {:induction false} FilterChannel(src: Source, historic: seq<BlockLog>, events: seq<Event>)
    ensures var r := RunFilter(src, historic, events);
            && r.filter.blocks.closed == RunChannel(events).1
            && Split(Sent(events), r.filter.blocks.pending)
            && r.filter.historic == (if DoPoll in events then None else Some(historic))
            && (DoPoll !in events ==> r.results == [] && r.filter.blocks.pending == Sent(events))
  {
    if events != [] {
      var init, last := events[..|events| - 1], events[|events| - 1];
      FilterChannel(src, historic, init);
      assert events == init + [last];
      if last.Notify? {
        SplitSnoc(Sent(init), RunFilter(src, historic, init).filter.blocks.pending, last.hash);
      }
    }
  }

  /** What a filter returned and what waits for its next poll is its historic logs and everything
      sent. */
  lemma {:induction false} FilterOwes(src: Source, historic: seq<BlockLog>, events: seq<Event>)
    requires DoPoll in events
    ensures var r := RunFilter(src, historic, events);
            r.results + Delivered(src, r.filter.blocks.pending) == historic + Delivered(src, Sent(events))
  {
    var init, last := events[..|events| - 1], events[|events| - 1];
    assert events == init + [last];
    FilterChannel(src, historic, init);
    var before := RunFilter(src, historic, init);
    if DoPoll in init { FilterOwes(src, historic, init); }
    match last {
      case Notify(hash) =>
        if !before.filter.blocks.closed {
          FilterOwedSnoc(src, before.results, historic, before.filter.blocks.pending, Sent(init), hash);
        }
      case Close =>
      case DoPoll =>
        FilterPollStep(src, before.filter, before.results, historic, Sent(init));
    }
  }

  lemma FilterPollStep(src: Source, f: Filter, results: seq<BlockLog>, historic: seq<BlockLog>, sent: seq<Hash>)
    requires if f.historic.Some? then results == [] && f.historic.value == historic && f.blocks.pending == sent
             else results + Delivered(src, f.blocks.pending) == historic + Delivered(src, sent)
    ensures var p := PollFilter(src, f);
            (results + p.results) + Delivered(src, []) == historic + Delivered(src, sent)
  {
    NothingBefore(Delivered(src, f.blocks.pending));
    var p := PollFilter(src, f);
    assert (results + p.results) + [] == results + p.results;
    if f.historic.Some? { NothingBefore(p.results); }
  }

  lemma FilterOwedSnoc(src: Source, results: seq<BlockLog>, historic: seq<BlockLog>,
                       pending: seq<Hash>, sent: seq<Hash>, hash: Hash)
    requires results + Delivered(src, pending) == historic + Delivered(src, sent)
    ensures results + Delivered(src, pending + [hash]) == historic + Delivered(src, sent + [hash])
  {
    DeliveredSnoc(src, sent, hash);
    DeliveredSnoc(src, pending, hash);
    Assoc(results, Delivered(src, pending), LogsOf(src, hash));
    Assoc(historic, Delivered(src, sent), LogsOf(src, hash));
  }

  /** The poll results of a filter concatenate to its historic logs followed by the matching logs
      of the notifications it consumed, whatever the schedule. */
  lemma FilterRuns(src: Source, historic: seq<BlockLog>, events: seq<Event>)
    requires DoPoll in events
    ensures var r := RunFilter(src, historic, events);
            && Split(Sent(events), r.filter.blocks.pending)
            && r.results == historic + Delivered(src, Consumed(Sent(events), r.filter.blocks.pending))
  {
    FilterChannel(src, historic, events);
    FilterOwes(src, historic, events);
    var r := RunFilter(src, historic, events);
    var consumed, pending := Consumed(Sent(events), r.filter.blocks.pending), r.filter.blocks.pending;
    DeliveredConcat(src, consumed, pending);
    Assoc(historic, Delivered(src, consumed), Delivered(src, pending));
    CancelRight(r.results, historic + Delivered(src, consumed), Delivered(src, pending));
  }

  /** Pushing and polling deliver the same logs: once a subscription and a filter that were sent
      the same notifications have both caught up, the filter's results are its historic logs
      followed by what the subscription emitted, however their polls were scheduled. */
  lemma PushAndPollAgree(src: Source, historic: seq<BlockLog>,
                         pushed: seq<Event>, polled: seq<Event>)
    requires Sent(pushed) == Sent(polled) && DoPoll in polled
    requires var r := RunSubscription(src, pushed);
             r.sub.queued == [] && r.sub.blocks.pending == []
    requires RunFilter(src, historic, polled).filter.blocks.pending == []
    ensures RunFilter(src, historic, polled).results ==
            historic + RunSubscription(src, pushed).emitted
  {
    SubscriptionRun(src, pushed);
    FilterRuns(src, historic, polled);
    var r := RunSubscription(src, pushed);
    assert r.emitted + [] == r.emitted;
    assert Consumed(Sent(pushed), []) == Sent(pushed);
  }

  // ----- the objects that are updated in place -----

  /** With nothing queued, a poll goes on as if the next block's logs had been queued before. */
  lemma ReceiveStep(src: Source, s: Subscription)
    requires s.queued == [] && s.blocks.pending != []
    ensures var rest := s.blocks.(pending := s.blocks.pending[1..]);
            var hash := s.blocks.pending[0];
            PollSubscription(src, s) ==
              if src.known(hash) then PollSubscription(src, Subscription(src.matching(hash), rest))
              else Polled(Subscription([], rest), Pending)
  {
  }

  /** The two storage lookups of a notified block; nothing unless both succeed. */
  method Lookup(store: Store, params: Params, hash: Hash) returns (logs: Option<seq<BlockLog>>)
    requires WellFormed(store)
    ensures logs == if store.block(hash).Some? && store.receipts(hash).Some?
                    then Some(Matching(store.block(hash).value, store.receipts(hash).value, params)) else None
    ensures var src := SourceOf(store, params);
            logs == if src.known(hash) then Some(LogsOf(src, hash)) else None
  {
    var block, receipts := store.block(hash), store.receipts(hash);
    if receipts.Some? && block.Some? {
      assert Known(store, hash);
      var matching := FilterLogs(block.value, receipts.value, params);
      logs := Some(matching);
    } else {
      logs := None;
    }
  }

  class LogsSubscription {
    const store: Store
    const params: Params
    var queued: seq<BlockLog>
    var blocks: Channel

    ghost function View(): Subscription
      reads this
    {
      Subscription(queued, blocks)
    }

    constructor (store: Store, params: Params)
      ensures this.store == store && this.params == params
      ensures View() == Subscription([], Channel([], false))
    {
      this.store, this.params := store, params;
      queued, blocks := [], Channel([], false);
    }

    method PollOnce() returns (result: Poll)
      requires WellFormed(store)
      modifies this
      ensures Polled(View(), result) == PollSubscription(SourceOf(store, params), old(View()))
    {
      ghost var src := SourceOf(store, params);
      ghost var goal := PollSubscription(src, View());
      while true
        invariant PollSubscription(src, View()) == goal
        decreases |blocks.pending|, |queued| == 0
      {
        if queued != [] {
          var log := queued[0];
          queued := queued[1..];
          return Ready(log);
        }
        if blocks.pending == [] {
          return if blocks.closed then Ended else Pending;
        }
        ReceiveStep(src, View());
        var hash := blocks.pending[0];
        blocks := blocks.(pending := blocks.pending[1..]);
        var logs := Lookup(store, params, hash);
        if logs.Some? {
          if logs.value == [] { continue; }
          queued := logs.value;
        }
        if queued == [] { return Pending; }
      }
    }
  }

  class LogsFilter {
    const store: Store
    const params: Params
    var historic: Option<seq<BlockLog>>
    var blocks: Channel

    ghost function View(): Filter
      reads this
    {
      Filter(historic, blocks)
    }

    constructor (store: Store, params: Params, historic: Option<seq<BlockLog>>)
      ensures this.store == store && this.params == params
      ensures View() == Filter(historic, Channel([], false))
    {
      this.store, this.params := store, params;
      this.historic, blocks := historic, Channel([], false);
    }

    method PollAll() returns (logs: seq<BlockLog>)
      requires WellFormed(store)
      modifies this
      ensures FilterRun(View(), logs) == PollFilter(SourceOf(store, params), old(View()))
    {
      logs := if historic.Some? then historic.value else [];
      historic := None;
      ghost var src := SourceOf(store, params);
      ghost var goal := PollFilter(src, old(View())).results;
      while blocks.pending != []
        invariant historic.None? && blocks.closed == old(blocks).closed
        invariant logs + Delivered(src, blocks.pending) == goal
        decreases |blocks.pending|
      {
        var hash := blocks.pending[0];
        DeliveredCons(src, blocks.pending);
        blocks := blocks.(pending := blocks.pending[1..]);
        var more := Lookup(store, params, hash);
        Assoc(logs, LogsOf(src, hash), Delivered(src, blocks.pending));
        if more.Some? {
          logs := logs + more.value;
        } else {
          NothingBefore(Delivered(src, blocks.pending));
        }
      }
    }
  }
}

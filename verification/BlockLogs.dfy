/** Which logs of a block match a filter, and the places they carry (anvil/src/pubsub.rs). */
module BlockLogs {
  import opened Bytes

  type Hash = nat

  const U32_LIMIT: nat := 0x1_0000_0000

  datatype Log = Log(address: nat, topics: seq<Hash>, data: seq<byte>)

  type Receipt = seq<Log>

  /** The parts of a block that log filtering reads; transactions by their hashes. */
  datatype Block = Block(hash: Hash, number: nat, transactions: seq<Hash>)

  datatype BlockLog = BlockLog(log: Log, blockHash: Hash, blockNumber: nat, transactionHash: Option<Hash>,
                               transactionIndex: nat, logIndex: nat, transactionLogIndex: nat)

  /** The filter's four tests; without a filter every log passes. */
  datatype Params = Params(filtered: bool, blockRange: nat -> bool, blockHash: Hash -> bool,
                           address: Log -> bool, topics: Log -> bool)

  predicate AddLog(block: Block, log: Log, params: Params) {
    params.filtered ==>
      && params.blockRange(block.number) && params.blockHash(block.hash)
      && params.address(log) && params.topics(log)
  }

  // ----- the matching logs of one block -----

  function LogsBefore(receipts: seq<Receipt>, r: nat): (n: nat)
    requires r <= |receipts|
  {
    if r == 0 then 0 else LogsBefore(receipts, r - 1) + |receipts[r - 1]|
  }

  /** What `filter_logs` relies on: a transaction for every receipt with logs, and a log count
      that fits the 32-bit index. */
  predicate Fits(block: Block, receipts: seq<Receipt>) {
    && (forall r :: 0 <= r < |receipts| && receipts[r] != [] ==> r < |block.transactions|)
    && LogsBefore(receipts, |receipts|) < U32_LIMIT
  }

  predicate InBlock(receipts: seq<Receipt>, r: int, t: int) {
    0 <= r < |receipts| && 0 <= t < |receipts[r]|
  }

  /** Log t of receipt r, with its place in the block. */
  function Place(block: Block, receipts: seq<Receipt>, r: nat, t: nat): (l: BlockLog)
    requires Fits(block, receipts) && InBlock(receipts, r, t)
  {
    BlockLog(receipts[r][t], block.hash, block.number, Some(block.transactions[r]),
             r, LogsBefore(receipts, r) + t, t)
  }

  function OfReceipt(block: Block, receipts: seq<Receipt>, params: Params, r: nat, t: nat): (logs: seq<BlockLog>)
    requires Fits(block, receipts) && r < |receipts| && t <= |receipts[r]|
  {
    if t == 0 then []
    else
      OfReceipt(block, receipts, params, r, t - 1) +
      if AddLog(block, receipts[r][t - 1], params) then [Place(block, receipts, r, t - 1)] else []
  }

  function OfReceipts(block: Block, receipts: seq<Receipt>, params: Params, r: nat): (logs: seq<BlockLog>)
    requires Fits(block, receipts) && r <= |receipts|
  {
    if r == 0 then []
    else OfReceipts(block, receipts, params, r - 1) + OfReceipt(block, receipts, params, r - 1, |receipts[r - 1]|)
  }

  function Matching(block: Block, receipts: seq<Receipt>, params: Params): (logs: seq<BlockLog>)
    requires Fits(block, receipts)
  {
    OfReceipts(block, receipts, params, |receipts|)
  }

  /** Collects the matching logs, counting every log of the block. */
  method FilterLogs(block: Block, receipts: seq<Receipt>, params: Params) returns (logs: seq<BlockLog>)
    requires Fits(block, receipts)
    ensures logs == Matching(block, receipts, params)
  {
    logs := [];
    var logIndex := 0;
    for r := 0 to |receipts|
      invariant logs == OfReceipts(block, receipts, params, r)
      invariant logIndex == LogsBefore(receipts, r)
    {
      var transactionHash := if receipts[r] != [] then Some(block.transactions[r]) else None;
      ghost var start := logs;
      for t := 0 to |receipts[r]|
        invariant logs == start + OfReceipt(block, receipts, params, r, t)
        invariant logIndex == LogsBefore(receipts, r) + t
      {
        if AddLog(block, receipts[r][t], params) {
          logs := logs + [BlockLog(receipts[r][t], block.hash, block.number, transactionHash, r, logIndex, t)];
        }
        logIndex := logIndex + 1;
      }
    }
  }

  // ----- exactness -----

  /** Logs of the block before place (r, t), in block order. */
  predicate Before(receipts: seq<Receipt>, r: int, t: int, r': int, t': int) {
    InBlock(receipts, r, t) && (r < r' || (r == r' && t < t'))
  }

  /** The sequence holds precisely the matching logs before (r, t), each with its place, in
      strictly increasing block order. */
  ghost predicate Exact(block: Block, receipts: seq<Receipt>, params: Params, r: int, t: int, logs: seq<BlockLog>)
    requires Fits(block, receipts)
  {
    && (forall k :: 0 <= k < |logs| ==>
          && Before(receipts, logs[k].transactionIndex, logs[k].transactionLogIndex, r, t)
          && AddLog(block, logs[k].log, params)
          && logs[k] == Place(block, receipts, logs[k].transactionIndex, logs[k].transactionLogIndex))
    && (forall k, l :: 0 <= k < l < |logs| ==> logs[k].logIndex < logs[l].logIndex)
    && (forall r', t' :: Before(receipts, r', t', r, t) && AddLog(block, receipts[r'][t'], params) ==>
          Place(block, receipts, r', t') in logs)
  }

  lemma {:induction false} LogsBeforeMonotone(receipts: seq<Receipt>, r: nat, r': nat)
    requires r < r' <= |receipts|
    ensures LogsBefore(receipts, r) + |receipts[r]| <= LogsBefore(receipts, r')
    decreases r'
  {
    if r + 1 < r' { LogsBeforeMonotone(receipts, r, r' - 1); }
  }

  lemma IndexOrder(block: Block, receipts: seq<Receipt>, r: nat, t: nat, r': nat, t': nat)
    requires Fits(block, receipts) && InBlock(receipts, r', t') && Before(receipts, r, t, r', t')
    ensures Place(block, receipts, r, t).logIndex < Place(block, receipts, r', t').logIndex
  {
    if r < r' { LogsBeforeMonotone(receipts, r, r'); }
  }

  lemma ExactSkip(block: Block, receipts: seq<Receipt>, params: Params, r: nat, t: nat, logs: seq<BlockLog>)
    requires Fits(block, receipts) && InBlock(receipts, r, t)
    requires Exact(block, receipts, params, r, t, logs)
    requires !AddLog(block, receipts[r][t], params)
    ensures Exact(block, receipts, params, r, t + 1, logs)
  {
    forall r', t' | Before(receipts, r', t', r, t + 1) && AddLog(block, receipts[r'][t'], params)
      ensures Place(block, receipts, r', t') in logs
    {
      assert Before(receipts, r', t', r, t);
    }
  }

  lemma ExactTake(block: Block, receipts: seq<Receipt>, params: Params, r: nat, t: nat, logs: seq<BlockLog>)
    requires Fits(block, receipts) && InBlock(receipts, r, t)
    requires Exact(block, receipts, params, r, t, logs)
    requires AddLog(block, receipts[r][t], params)
    ensures Exact(block, receipts, params, r, t + 1, logs + [Place(block, receipts, r, t)])
  {
    var more := logs + [Place(block, receipts, r, t)];
    forall k | 0 <= k < |logs| ensures logs[k].logIndex < Place(block, receipts, r, t).logIndex {
      IndexOrder(block, receipts, logs[k].transactionIndex, logs[k].transactionLogIndex, r, t);
    }
    forall r', t' | Before(receipts, r', t', r, t + 1) && AddLog(block, receipts[r'][t'], params)
      ensures Place(block, receipts, r', t') in more
    {
      if r' == r && t' == t {
        assert more[|logs|] == Place(block, receipts, r, t);
      } else {
        assert Before(receipts, r', t', r, t);
        assert Place(block, receipts, r', t') in logs;
      }
    }
  }

  lemma ExactStep(block: Block, receipts: seq<Receipt>, params: Params, r: nat, t: nat,
                  start: seq<BlockLog>, logs: seq<BlockLog>, step: seq<BlockLog>)
    requires Fits(block, receipts) && InBlock(receipts, r, t)
    requires step == if AddLog(block, receipts[r][t], params) then [Place(block, receipts, r, t)] else []
    requires Exact(block, receipts, params, r, t, start + logs)
    ensures Exact(block, receipts, params, r, t + 1, start + (logs + step))
  {
    assert start + (logs + step) == (start + logs) + step;
    if AddLog(block, receipts[r][t], params) {
      ExactTake(block, receipts, params, r, t, start + logs);
    } else {
      assert (start + logs) + step == start + logs;
      ExactSkip(block, receipts, params, r, t, start + logs);
    }
  }

  lemma {:induction false} ReceiptExact(block: Block, receipts: seq<Receipt>, params: Params, r: nat, t: nat,
                                        start: seq<BlockLog>)
    requires Fits(block, receipts) && r < |receipts| && t <= |receipts[r]|
    requires Exact(block, receipts, params, r, 0, start)
    ensures Exact(block, receipts, params, r, t, start + OfReceipt(block, receipts, params, r, t))
  {
    if t == 0 {
      assert start + OfReceipt(block, receipts, params, r, 0) == start;
    } else {
      ReceiptExact(block, receipts, params, r, t - 1, start);
      ExactStep(block, receipts, params, r, t - 1, start, OfReceipt(block, receipts, params, r, t - 1),
                if AddLog(block, receipts[r][t - 1], params) then [Place(block, receipts, r, t - 1)] else []);
    }
  }

  lemma ExactNextReceipt(block: Block, receipts: seq<Receipt>, params: Params, r: nat, logs: seq<BlockLog>)
    requires Fits(block, receipts) && r < |receipts|
    requires Exact(block, receipts, params, r, |receipts[r]|, logs)
    ensures Exact(block, receipts, params, r + 1, 0, logs)
  {
    assert forall r', t' :: Before(receipts, r', t', r + 1, 0) <==> Before(receipts, r', t', r, |receipts[r]|);
  }

  lemma ExactReceipt(block: Block, receipts: seq<Receipt>, params: Params, r: nat, before: seq<BlockLog>,
                     logs: seq<BlockLog>)
    requires Fits(block, receipts) && r < |receipts|
    requires Exact(block, receipts, params, r, 0, before)
    requires logs == before + OfReceipt(block, receipts, params, r, |receipts[r]|)
    ensures Exact(block, receipts, params, r + 1, 0, logs)
  {
    ReceiptExact(block, receipts, params, r, |receipts[r]|, before);
    ExactNextReceipt(block, receipts, params, r, logs);
  }

  lemma NothingIsExact(block: Block, receipts: seq<Receipt>, params: Params)
    requires Fits(block, receipts)
    ensures Exact(block, receipts, params, 0, 0, [])
  {
  }

  lemma {:induction false} ReceiptsExact(block: Block, receipts: seq<Receipt>, params: Params, r: nat,
                                         logs: seq<BlockLog>)
    requires Fits(block, receipts) && r <= |receipts| && logs == OfReceipts(block, receipts, params, r)
    ensures Exact(block, receipts, params, r, 0, logs)
    decreases r
  {
    if r == 0 {
      NothingIsExact(block, receipts, params);
    } else {
      var before := OfReceipts(block, receipts, params, r - 1);
      ReceiptsExact(block, receipts, params, r - 1, before);
      ExactReceipt(block, receipts, params, r - 1, before, logs);
    }
  }

  function Flatten(receipts: seq<Receipt>): (logs: seq<Log>)
  {
    if receipts == [] then [] else Flatten(receipts[..|receipts| - 1]) + receipts[|receipts| - 1]
  }

  lemma {:induction false} IndexIsPosition(receipts: seq<Receipt>, r: nat, t: nat)
    requires InBlock(receipts, r, t)
    ensures |Flatten(receipts)| == LogsBefore(receipts, |receipts|)
    ensures LogsBefore(receipts, r) + t < |Flatten(receipts)|
    ensures Flatten(receipts)[LogsBefore(receipts, r) + t] == receipts[r][t]
  {
    var init := receipts[..|receipts| - 1];
    LogsBeforePrefix(receipts, |receipts| - 1, |receipts| - 1);
    FlattenLength(init);
    if r < |receipts| - 1 {
      LogsBeforePrefix(receipts, |receipts| - 1, r);
      IndexIsPosition(init, r, t);
    }
  }

  lemma {:induction false} LogsBeforePrefix(receipts: seq<Receipt>, n: nat, r: nat)
    requires r <= n <= |receipts|
    ensures LogsBefore(receipts[..n], r) == LogsBefore(receipts, r)
  {
    if r > 0 { LogsBeforePrefix(receipts, n, r - 1); }
  }

  lemma {:induction false} FlattenLength(receipts: seq<Receipt>)
    ensures |Flatten(receipts)| == LogsBefore(receipts, |receipts|)
  {
    if receipts != [] {
      FlattenLength(receipts[..|receipts| - 1]);
      LogsBeforePrefix(receipts, |receipts| - 1, |receipts| - 1);
    }
  }

  /** There is no filter, or the log passes its four tests. */
  predicate Passes(block: Block, log: Log, params: Params) {
    || !params.filtered
    || (params.blockRange(block.number) && params.blockHash(block.hash) && params.address(log) && params.topics(log))
  }

  /** Every field of a reported log: where it stands, what it is, and that it passes. */
  predicate IsPlaced(block: Block, receipts: seq<Receipt>, params: Params, l: BlockLog) {
    && InBlock(receipts, l.transactionIndex, l.transactionLogIndex)
    && l.log == receipts[l.transactionIndex][l.transactionLogIndex] && Passes(block, l.log, params)
    && l.blockHash == block.hash && l.blockNumber == block.number
    && l.transactionIndex < |block.transactions|
    && l.transactionHash == Some(block.transactions[l.transactionIndex])
    && l.logIndex == LogsBefore(receipts, l.transactionIndex) + l.transactionLogIndex
    && l.logIndex < |Flatten(receipts)| && Flatten(receipts)[l.logIndex] == l.log
  }

  /** `filter_logs` returns exactly the logs that pass, in block order; each carries the block it is in,
      the transaction of its receipt, and as log index its position among all logs of the block, which
      is the number of logs in earlier receipts plus its index within its own. */
  lemma FilterLogsIsExact(block: Block, receipts: seq<Receipt>, params: Params)
    requires Fits(block, receipts)
    ensures var logs := Matching(block, receipts, params);
            && (forall k :: 0 <= k < |logs| ==> IsPlaced(block, receipts, params, logs[k]))
            && (forall k, l :: 0 <= k < l < |logs| ==> logs[k].logIndex < logs[l].logIndex)
            && (forall r, t :: InBlock(receipts, r, t) && Passes(block, receipts[r][t], params) ==>
                  exists k :: 0 <= k < |logs| && logs[k].transactionIndex == r && logs[k].transactionLogIndex == t)
  {
    var logs := Matching(block, receipts, params);
    ReceiptsExact(block, receipts, params, |receipts|, logs);
    forall k | 0 <= k < |logs| ensures IsPlaced(block, receipts, params, logs[k]) {
      IndexIsPosition(receipts, logs[k].transactionIndex, logs[k].transactionLogIndex);
    }
    forall r, t | InBlock(receipts, r, t) && Passes(block, receipts[r][t], params)
      ensures exists k :: 0 <= k < |logs| && logs[k].transactionIndex == r && logs[k].transactionLogIndex == t
    {
      assert Before(receipts, r, t, |receipts|, 0) && AddLog(block, receipts[r][t], params);
      assert Place(block, receipts, r, t) in logs;
    }
  }
}

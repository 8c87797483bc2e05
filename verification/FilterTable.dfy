/** The table of polling filters and their expiry (anvil/src/filter.rs). Operations take effect one
    after the other, in the order in which they get the table's lock. The times they carry are clock
    readings: an eviction reads the clock before it waits for the lock, so its time may lie before
    that of an operation that took effect earlier. */
module FilterTable {
  import opened Bytes

  type Id = string
  type Time = nat

  datatype Entry<F> = Entry(filter: F, deadline: Time)

  /** An operation with the time at which it read the clock. */
  datatype Op<F> =
    | Add(id: Id, filter: F, at: Time)
    | Changes(id: Id, at: Time)
    | Uninstall(id: Id)
    | Evict(at: Time)

  /** `advance` is what polling does to a filter. */
  function Apply<F>(table: map<Id, Entry<F>>, keepalive: nat, advance: F -> F, op: Op<F>): (after: map<Id, Entry<F>>)
  {
    match op
    case Add(id, filter, at) => table[id := Entry(filter, at + keepalive)]
    case Changes(id, at) =>
      if id in table then table[id := Entry(advance(table[id].filter), at + keepalive)] else table
    case Uninstall(id) => table - {id}
    case Evict(at) => map id | id in table && at <= table[id].deadline :: table[id]
  }

  function RunTable<F>(keepalive: nat, advance: F -> F, ops: seq<Op<F>>): (table: map<Id, Entry<F>>)
  {
    if ops == [] then map[]
    else Apply(RunTable(keepalive, advance, ops[..|ops| - 1]), keepalive, advance, ops[|ops| - 1])
  }

  // ----- when a filter is in the table -----

  predicate Uses<F>(op: Op<F>, id: Id) {
    (op.Add? || op.Changes?) && op.id == id
  }

  /** When the filter was last installed or polled. */
  function LastUse<F>(ops: seq<Op<F>>, id: Id): (t: Option<Time>)
  {
    if ops == [] then None
    else
      var last := ops[|ops| - 1];
      if Uses(last, id) then Some(last.at) else LastUse(ops[..|ops| - 1], id)
  }

  /** The operation at j neither uninstalls the filter nor evicts it more than the keepalive after
      its last use. */
  predicate Spares<F>(keepalive: nat, ops: seq<Op<F>>, id: Id, j: nat)
    requires j < |ops|
  {
    match ops[j]
    case Uninstall(other) => other != id
    case Evict(at) => LastUse(ops[..j], id).Some? && at <= LastUse(ops[..j], id).value + keepalive
    case _ => true
  }

  /** Installed by operation i and spared by every later one. */
  predicate AliveSince<F>(keepalive: nat, ops: seq<Op<F>>, id: Id, i: nat)
    requires i < |ops|
  {
    ops[i].Add? && ops[i].id == id && forall j :: i < j < |ops| ==> Spares(keepalive, ops, id, j)
  }

  lemma AliveStep<F>(keepalive: nat, ops: seq<Op<F>>, id: Id, i: nat)
    requires i < |ops| - 1
    ensures AliveSince(keepalive, ops, id, i) <==>
            AliveSince(keepalive, ops[..|ops| - 1], id, i) && Spares(keepalive, ops, id, |ops| - 1)
  {
    var init := ops[..|ops| - 1];
    assert forall j :: 0 <= j < |init| ==> init[..j] == ops[..j];
    assert forall j :: 0 <= j < |init| ==> (Spares(keepalive, init, id, j) <==> Spares(keepalive, ops, id, j));
  }

  /** In every run, a filter is in the table exactly when some operation installed it and every
      operation since then spared it; and its deadline is its last use plus the keepalive. */
  lemma {:induction false} PresentIff<F>(keepalive: nat, advance: F -> F, ops: seq<Op<F>>, id: Id)
    ensures id in RunTable(keepalive, advance, ops) <==>
            exists i: nat :: i < |ops| && AliveSince(keepalive, ops, id, i)
    ensures var table := RunTable(keepalive, advance, ops);
            id in table ==> LastUse(ops, id) == Some(table[id].deadline - keepalive) && table[id].deadline >= keepalive
  {
    if ops != [] {
      var init, n := ops[..|ops| - 1], |ops| - 1;
      PresentIff(keepalive, advance, init, id);
      assert init == ops[..n];
      if id in RunTable(keepalive, advance, ops) {
        if ops[n].Add? && ops[n].id == id {
          assert AliveSince(keepalive, ops, id, n);
        } else {
          var i: nat :| i < |init| && AliveSince(keepalive, init, id, i);
          AliveStep(keepalive, ops, id, i);
          assert AliveSince(keepalive, ops, id, i);
        }
      }
      if exists i: nat :: i < |ops| && AliveSince(keepalive, ops, id, i) {
        var i: nat :| i < |ops| && AliveSince(keepalive, ops, id, i);
        if i < n {
          AliveStep(keepalive, ops, id, i);
          assert id in RunTable(keepalive, advance, init);
        }
      }
    }
  }

  function Repeat<F>(advance: F -> F, filter: F, n: nat): (f: F)
  {
    if n == 0 then filter else advance(Repeat(advance, filter, n - 1))
  }

  /** How often the filter was polled since operation i. */
  function PollsSince<F>(ops: seq<Op<F>>, id: Id, i: nat): (n: nat)
    requires i < |ops|
    decreases |ops|
  {
    if |ops| == i + 1 then 0
    else
      var last := ops[|ops| - 1];
      PollsSince(ops[..|ops| - 1], id, i) + if last.Changes? && last.id == id then 1 else 0
  }

  /** A filter in the table is the one its last installation put there, advanced once for every
      poll since: polls are neither lost nor repeated. */
  lemma {:induction false} StoredFilter<F>(keepalive: nat, advance: F -> F, ops: seq<Op<F>>, id: Id, i: nat)
    requires i < |ops| && AliveSince(keepalive, ops, id, i)
    requires forall j :: i < j < |ops| ==> !(ops[j].Add? && ops[j].id == id)
    ensures var table := RunTable(keepalive, advance, ops);
            id in table && table[id].filter == Repeat(advance, ops[i].filter, PollsSince(ops, id, i))
    decreases |ops|
  {
    PresentIff(keepalive, advance, ops, id);
    if i < |ops| - 1 {
      var init := ops[..|ops| - 1];
      AliveStep(keepalive, ops, id, i);
      StoredFilter(keepalive, advance, init, id, i);
    }
  }

  // ----- what this means for a client -----

  /** The filter's next use after operation j comes within the keepalive of its last use before. */
  ghost predicate PolledInTime<F>(keepalive: nat, ops: seq<Op<F>>, id: Id, j: nat)
    requires j < |ops|
  {
    exists m :: j < m < |ops| && Uses(ops[m], id) && LastUse(ops[..j], id).Some? &&
      ops[m].at <= LastUse(ops[..j], id).value + keepalive
  }

  /** A filter polled at gaps no longer than the keepalive, and not uninstalled, is never evicted: it
      is in the table after every operation since its installation. Of the clock it is only needed
      that a use reads no earlier time than an eviction before it. */
  lemma PolledFilterSurvives<F>(keepalive: nat, advance: F -> F, ops: seq<Op<F>>, id: Id, i: nat)
    requires i < |ops| && ops[i].Add? && ops[i].id == id
    requires forall j :: i < j < |ops| ==> ops[j] != Uninstall(id)
    requires forall j, m :: i < j < m < |ops| && ops[j].Evict? && Uses(ops[m], id) ==> ops[j].at <= ops[m].at
    requires forall j :: i < j < |ops| && ops[j].Evict? ==> PolledInTime(keepalive, ops, id, j)
    ensures forall n :: i < n <= |ops| ==> id in RunTable(keepalive, advance, ops[..n])
  {
    forall n | i < n <= |ops| ensures id in RunTable(keepalive, advance, ops[..n]) {
      var run := ops[..n];
      forall j | i < j < n ensures Spares(keepalive, run, id, j) {
        assert run[..j] == ops[..j];
        if ops[j].Evict? {
          var m :| j < m < |ops| && Uses(ops[m], id) && LastUse(ops[..j], id).Some? &&
            ops[m].at <= LastUse(ops[..j], id).value + keepalive;
        }
      }
      assert AliveSince(keepalive, run, id, i);
      PresentIff(keepalive, advance, run, id);
    }
  }

  /** Any eviction later than the last use plus the keepalive removes the filter, and no other
      eviction does. */
  lemma EvictionIff<F>(keepalive: nat, advance: F -> F, ops: seq<Op<F>>, id: Id, at: Time)
    requires id in RunTable(keepalive, advance, ops)
    ensures LastUse(ops, id).Some?
    ensures id !in RunTable(keepalive, advance, ops + [Evict(at)]) <==> at > LastUse(ops, id).value + keepalive
  {
    PresentIff(keepalive, advance, ops, id);
    assert (ops + [Evict(at)])[..|ops|] == ops;
  }

  // ----- the table that is updated in place -----

  class Filters<F, R> {
    const keepalive: nat
    /** Polling a filter: its next state and the response. */
    const poll: F -> (F, R)
    var active: map<Id, Entry<F>>

    ghost function Advance(): F -> F
    {
      f => poll(f).0
    }

    constructor (keepalive: nat, poll: F -> (F, R))
      ensures this.keepalive == keepalive && this.poll == poll && active == map[]
    {
      this.keepalive, this.poll := keepalive, poll;
      active := map[];
    }

    method AddFilter(id: Id, filter: F, now: Time)
      modifies this
      ensures active == Apply(old(active), keepalive, Advance(), Add(id, filter, now))
    {
      active := active[id := Entry(filter, now + keepalive)];
    }

    /** The filter's response, or nothing for an unknown id. */
    method GetFilterChanges(id: Id, now: Time) returns (response: Option<R>)
      modifies this
      ensures active == Apply(old(active), keepalive, Advance(), Changes(id, now))
      ensures response == if id in old(active) then Some(poll(old(active)[id].filter).1) else None
    {
      if id in active {
        var (filter, r) := poll(active[id].filter);
        active := active[id := Entry(filter, now + keepalive)];
        response := Some(r);
      } else {
        response := None;
      }
    }

    method UninstallFilter(id: Id) returns (filter: Option<F>)
      modifies this
      ensures active == Apply(old(active), keepalive, Advance(), Uninstall(id))
      ensures filter == if id in old(active) then Some(old(active)[id].filter) else None
    {
      filter := if id in active then Some(active[id].filter) else None;
      active := active - {id};
    }

    method EvictStale(now: Time)
      modifies this
      ensures active == Apply(old(active), keepalive, Advance(), Evict(now))
    {
      active := map id | id in active && !(now > active[id].deadline) :: active[id];
    }
  }
}

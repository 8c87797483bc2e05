/** The parallel search for a function selector with leading zero bytes (cast/src/lib.rs). Workers
    scan nonces in steps of the number of threads and share a flag; any interleaving of their loop
    iterations is a run. Nonces are 32-bit and wrap around, as in an optimised build. */
module SelectorSearch {
  import opened Bytes
  import opened Radix

  const U32_MAX: nat := 0xffff_ffff
  const U32_LIMIT: nat := 0x1_0000_0000

  type Digest = d: seq<byte> | |d| == 32 witness seq(32, _ => 0)

  /** What is being searched for: the signature split at its first parenthesis, the number of
      leading zero bytes wanted, the number of threads, and the hash. */
  datatype Search = Search(name: string, params: string, zeroes: nat, threads: nat, hash: string -> Digest)

  function Input(q: Search, nonce: nat): (s: string)
  {
    q.name + Digits(nonce, 10) + "(" + q.params
  }

  function SelectorOf(q: Search, input: string): (sel: seq<byte>)
    ensures |sel| == 4
  {
    q.hash(input)[..4]
  }

  function LeadingZeroes(bs: seq<byte>): (n: nat)
    ensures n <= |bs|
    ensures forall i :: 0 <= i < n ==> bs[i] == 0
    ensures n < |bs| ==> bs[n] != 0
  {
    if bs != [] && bs[0] == 0 then
      var n := LeadingZeroes(bs[1..]);
      assert forall i :: 1 <= i < n + 1 ==> bs[i] == bs[1..][i - 1];
      1 + n
    else 0
  }

  predicate Qualifies(q: Search, nonce: nat) {
    LeadingZeroes(SelectorOf(q, Input(q, nonce))) == q.zeroes
  }

  // ----- the workers -----

  /** All the workers depend on: how many they are and which nonces are hits. */
  datatype Scan = Scan(threads: nat, hits: nat -> bool)

  predicate Valid(q: Scan) {
    1 <= q.threads < U32_LIMIT
  }

  datatype Worker = Scanning(nonce: nat) | Hit(nonce: nat) | Quit

  datatype State = State(workers: seq<Worker>, found: bool)

  function Start(q: Scan): (s: State)
    ensures |s.workers| == q.threads
  {
    State(seq(q.threads, i requires 0 <= i < q.threads => Scanning(i)), false)
  }

  /** One loop iteration of one worker. The flag is read with relaxed ordering: a set flag may still
      be seen unset, but an unset flag is never seen set. */
  datatype Turn = Turn(worker: nat, seesFlag: bool)

  function Iterate(q: Scan, s: State, t: Turn): (s': State)
    ensures |s'.workers| == |s.workers|
  {
    if t.worker >= |s.workers| || !s.workers[t.worker].Scanning? || (t.seesFlag && !s.found) then s
    else
      var nonce := s.workers[t.worker].nonce;
      if nonce >= U32_MAX || t.seesFlag then s.(workers := s.workers[t.worker := Quit])
      else if q.hits(nonce) then State(s.workers[t.worker := Hit(nonce)], true)
      else s.(workers := s.workers[t.worker := Scanning((nonce + q.threads) % U32_LIMIT)])
  }

  function Run(q: Scan, turns: seq<Turn>): (s: State)
    ensures |s.workers| == q.threads
  {
    if turns == [] then Start(q)
    else Iterate(q, Run(q, turns[..|turns| - 1]), turns[|turns| - 1])
  }

  // ----- what a run has looked at -----

  /** The k-th nonce a worker looks at. */
  function Nonce(q: Scan, i: nat, k: nat): (n: nat)
    requires i < U32_LIMIT
    ensures n < U32_LIMIT
  {
    if k == 0 then i else (Nonce(q, i, k - 1) + q.threads) % U32_LIMIT
  }

  /** The first k nonces of worker i were within range and did not qualify. */
  ghost predicate Swept(q: Scan, i: nat, k: nat)
    requires i < U32_LIMIT
  {
    forall j: nat :: j < k ==> Nonce(q, i, j) < U32_MAX && !q.hits(Nonce(q, i, j))
  }

  ghost predicate WorkerOk(q: Scan, i: nat, w: Worker, found: bool)
    requires i < U32_LIMIT
  {
    match w
    case Scanning(nonce) => exists k: nat :: Swept(q, i, k) && nonce == Nonce(q, i, k)
    case Hit(nonce) => found && nonce < U32_MAX && q.hits(nonce)
    case Quit => found || exists k: nat :: Swept(q, i, k) && Nonce(q, i, k) == U32_MAX
  }

  predicate SomeHit(s: State) {
    exists i :: 0 <= i < |s.workers| && s.workers[i].Hit?
  }

  ghost predicate Inv(q: Scan, s: State)
    requires Valid(q)
  {
    && |s.workers| == q.threads
    && (forall i :: 0 <= i < |s.workers| ==> WorkerOk(q, i, s.workers[i], s.found))
    && (s.found <==> SomeHit(s))
  }

  /** The worker whose turn it is stays accounted for. */
  lemma TurnKeepsWorker(q: Scan, s: State, t: Turn)
    requires Valid(q) && |s.workers| == q.threads && t.worker < q.threads
    requires WorkerOk(q, t.worker, s.workers[t.worker], s.found)
    ensures var s' := Iterate(q, s, t);
            WorkerOk(q, t.worker, s'.workers[t.worker], s'.found)
  {
    var i, s' := t.worker, Iterate(q, s, t);
    if s'.workers[i] != s.workers[i] {
      var k: nat :| Swept(q, i, k) && s.workers[i].nonce == Nonce(q, i, k);
      if s'.workers[i].Scanning? {
        assert Swept(q, i, k + 1) && s'.workers[i].nonce == Nonce(q, i, k + 1);
      }
    }
  }

  lemma IterateKeepsInv(q: Scan, s: State, t: Turn)
    requires Valid(q) && Inv(q, s)
    ensures Inv(q, Iterate(q, s, t))
  {
    var s' := Iterate(q, s, t);
    if s' != s {
      TurnKeepsWorker(q, s, t);
      forall i | 0 <= i < |s'.workers| && i != t.worker ensures WorkerOk(q, i, s'.workers[i], s'.found) {
        assert WorkerOk(q, i, s.workers[i], s.found);
      }
      if s.found {
        var h :| 0 <= h < |s.workers| && s.workers[h].Hit?;
        assert s'.workers[h].Hit?;
      } else if s'.found {
        assert s'.workers[t.worker].Hit?;
      }
    }
  }

  lemma {:induction false} RunKeepsInv(q: Scan, turns: seq<Turn>)
    requires Valid(q)
    ensures Inv(q, Run(q, turns))
  {
    if turns == [] {
      forall i | 0 <= i < q.threads ensures WorkerOk(q, i, Start(q).workers[i], false) {
        assert Swept(q, i, 0) && Nonce(q, i, 0) == i;
      }
    } else {
      RunKeepsInv(q, turns[..|turns| - 1]);
      IterateKeepsInv(q, Run(q, turns[..|turns| - 1]), turns[|turns| - 1]);
    }
  }

  // ----- soundness and completeness over every interleaving -----

  function ScanOf(q: Search): (scan: Scan)
  {
    Scan(q.threads, (nonce: nat) => Qualifies(q, nonce))
  }

  /** What the caller gets once no worker is scanning: some worker's find, or none. */
  function Report(q: Search, s: State, pick: nat): (r: Option<(string, string)>)
    requires SomeHit(s) ==> pick < |s.workers| && s.workers[pick].Hit?
  {
    if SomeHit(s) then
      var input := Input(q, s.workers[pick].nonce);
      Some(("0x" + HexEncode(SelectorOf(q, input)), input))
    else None
  }

  predicate Finished(s: State) {
    forall i :: 0 <= i < |s.workers| ==> !s.workers[i].Scanning?
  }

  /** A returned pair is the signature with some nonce behind its name, and the first four bytes of
      that signature's hash, with exactly the wanted number of leading zero bytes. */
  lemma ReportedPairIsSound(q: Search, turns: seq<Turn>, pick: nat)
    requires Valid(ScanOf(q))
    requires SomeHit(Run(ScanOf(q), turns)) ==>
               pick < |Run(ScanOf(q), turns).workers| && Run(ScanOf(q), turns).workers[pick].Hit?
    requires Report(q, Run(ScanOf(q), turns), pick).Some?
    ensures var (selector, signature) := Report(q, Run(ScanOf(q), turns), pick).value;
            && selector == "0x" + HexEncode(q.hash(signature)[..4])
            && LeadingZeroes(q.hash(signature)[..4]) == q.zeroes
            && exists nonce: nat :: nonce < U32_MAX && signature == q.name + Digits(nonce, 10) + "(" + q.params
  {
    RunKeepsInv(ScanOf(q), turns);
    var nonce := Run(ScanOf(q), turns).workers[pick].nonce;
    assert WorkerOk(ScanOf(q), pick, Run(ScanOf(q), turns).workers[pick], Run(ScanOf(q), turns).found);
    assert Input(q, nonce) == Report(q, Run(ScanOf(q), turns), pick).value.1;
  }

  /** k steps of n. */
  ghost function Steps(k: nat, n: nat): (x: nat)
  {
    if k == 0 then 0 else Steps(k - 1, n) + n
  }

  lemma {:induction false} StepsMultiply(k: nat, n: nat)
    ensures Steps(k, n) == k * n
  {
    if k > 0 {
      StepsMultiply(k - 1, n);
      assert k * n == (k - 1) * n + n;
    }
  }

  lemma {:induction false} StepsGrow(j: nat, k: nat, n: nat)
    requires j <= k
    ensures Steps(j, n) <= Steps(k, n)
    decreases k
  {
    if j < k { StepsGrow(j, k - 1, n); }
  }

  /** Until it wraps around, a worker's k-th nonce is its number plus k steps. */
  lemma {:induction false} NonceBeforeWrap(q: Scan, i: nat, k: nat)
    requires i + Steps(k, q.threads) < U32_LIMIT
    ensures Nonce(q, i, k) == i + Steps(k, q.threads)
  {
    if k > 0 {
      NonceBeforeWrap(q, i, k - 1);
    }
  }

  /** A worker reaches the maximum only after every smaller nonce of its residue class. */
  lemma MaxComesLast(q: Scan, i: nat, k: nat, turn: nat)
    requires i < U32_LIMIT && Nonce(q, i, k) == U32_MAX
    requires i + Steps(turn, q.threads) < U32_MAX
    ensures turn < k
  {
    if turn >= k {
      StepsGrow(k, turn, q.threads);
      NonceBeforeWrap(q, i, k);
    }
  }

  lemma ClassIsSwept(q: Scan, i: nat, k: nat, turn: nat)
    requires i < U32_LIMIT && Swept(q, i, k) && Nonce(q, i, k) == U32_MAX
    requires i + Steps(turn, q.threads) < U32_MAX
    ensures !q.hits(i + Steps(turn, q.threads))
  {
    MaxComesLast(q, i, k, turn);
    NonceBeforeWrap(q, i, turn);
  }

  /** Every nonce belongs to one worker. */
  lemma Locate(r: nat, n: nat) returns (i: nat, turn: nat)
    requires n >= 1
    ensures i < n && r == i + Steps(turn, n)
  {
    i, turn := r % n, r / n;
    StepsMultiply(turn, n);
  }

  /** Workers end without a hit only when no nonce below the 32-bit maximum is one. */
  lemma NoHitIsComplete(q: Scan, turns: seq<Turn>)
    requires Valid(q)
    requires Finished(Run(q, turns)) && !SomeHit(Run(q, turns))
    ensures forall r: nat :: r < U32_MAX ==> !q.hits(r)
  {
    RunKeepsInv(q, turns);
    var s := Run(q, turns);
    forall r: nat | r < U32_MAX ensures !q.hits(r) {
      var i, turn := Locate(r, q.threads);
      assert s.workers[i].Quit? && WorkerOk(q, i, s.workers[i], s.found);
      var k: nat :| Swept(q, i, k) && Nonce(q, i, k) == U32_MAX;
      ClassIsSwept(q, i, k, turn);
    }
  }

  // ----- when the search can give up -----

  lemma EvenWraps(a: nat, b: nat)
    requires a % 2 == 0 && b % 2 == 0
    ensures (a + b) % U32_LIMIT % 2 == 0
  {
  }

  lemma {:induction false} EvenStepStaysEven(q: Scan, k: nat)
    requires q.threads % 2 == 0
    ensures Nonce(q, 0, k) % 2 == 0
  {
    if k > 0 {
      EvenStepStaysEven(q, k - 1);
      EvenWraps(Nonce(q, 0, k - 1), q.threads);
    }
  }

  /** With an even number of threads the first worker only sees even nonces and never reaches the
      odd maximum, so the search never reports failure. */
  lemma EvenThreadsNeverGiveUp(q: Scan, turns: seq<Turn>)
    requires Valid(q) && q.threads % 2 == 0
    ensures Finished(Run(q, turns)) ==> SomeHit(Run(q, turns))
  {
    RunKeepsInv(q, turns);
    var s := Run(q, turns);
    if Finished(s) && !SomeHit(s) {
      assert WorkerOk(q, 0, s.workers[0], s.found);
      var k: nat :| Swept(q, 0, k) && Nonce(q, 0, k) == U32_MAX;
      EvenStepStaysEven(q, k);
    }
  }

  lemma AddWrapped(a: nat, b: nat)
    ensures (a % U32_LIMIT + b) % U32_LIMIT == (a + b) % U32_LIMIT
  {
  }

  lemma {:induction false} NonceModulo(q: Scan, i: nat, k: nat)
    requires i < U32_LIMIT
    ensures Nonce(q, i, k) == (i + Steps(k, q.threads)) % U32_LIMIT
  {
    if k > 0 {
      NonceModulo(q, i, k - 1);
      AddWrapped(i + Steps(k - 1, q.threads), q.threads);
    }
  }

  /** Multiples of an odd number meet every residue of a power of two. */
  lemma {:induction false} OddMultiple(n: nat, c: nat, bits: nat) returns (k: nat, m: int)
    requires n % 2 == 1
    ensures k * n == c + m * Pow(2, bits)
  {
    if bits == 0 {
      k, m := 0, -(c as int);
    } else {
      k, m := OddMultiple(n, c, bits - 1);
      var p := Pow(2, bits - 1);
      if m % 2 == 0 {
        assert m * p == (m / 2) * (2 * p);
        m := m / 2;
      } else {
        var m' := (m + n) / 2;
        assert m + n == 2 * m';
        assert (k + p) * n == c + (m + n) * p;
        assert (m + n) * p == m' * (2 * p);
        k, m := k + p, m';
      }
    }
  }

  lemma ThirtyTwoBits()
    ensures Pow(2, 32) == U32_LIMIT
  {
    PowSixteen(8);
    assert Pow(16, 2) == 0x100;
    assert Pow(16, 4) == 0x1_0000;
    assert Pow(16, 6) == 0x100_0000;
    assert Pow(16, 8) == 0x1_0000_0000;
  }

  lemma CongruentToMax(x: nat, m: int)
    requires x == U32_MAX + m * U32_LIMIT
    ensures x % U32_LIMIT == U32_MAX
  {
  }

  lemma OddStepReachesMax(q: Scan, i: nat) returns (k: nat)
    requires q.threads % 2 == 1 && i < U32_LIMIT
    ensures Nonce(q, i, k) == U32_MAX
  {
    ThirtyTwoBits();
    var m: int;
    k, m := OddMultiple(q.threads, U32_MAX - i, 32);
    NonceModulo(q, i, k);
    StepsMultiply(k, q.threads);
    CongruentToMax(i + Steps(k, q.threads), m);
  }

  /** Turns of one worker that never sees the flag. */
  function Alone(i: nat, n: nat): (turns: seq<Turn>)
  {
    seq(n, _ => Turn(i, false))
  }

  /** Nobody but worker i has moved. */
  predicate OthersRest(s: State, s': State, i: nat) {
    && s'.found == s.found && |s'.workers| == |s.workers|
    && forall j :: 0 <= j < |s.workers| && j != i ==> s'.workers[j] == s.workers[j]
  }

  /** Where n fruitless turns take worker i: to its n-th nonce, or to its end. */
  ghost predicate At(q: Scan, w: Worker, i: nat, n: nat)
    requires i < U32_LIMIT
  {
    w == Scanning(Nonce(q, i, n)) || (w.Quit? && exists k: nat :: k < n && Nonce(q, i, k) == U32_MAX)
  }

  lemma FruitlessTurn(q: Scan, s: State, i: nat, n: nat)
    requires Valid(q) && |s.workers| == q.threads && i < q.threads && At(q, s.workers[i], i, n)
    requires forall r: nat :: r < U32_MAX ==> !q.hits(r)
    ensures var s' := Iterate(q, s, Turn(i, false));
            At(q, s'.workers[i], i, n + 1) && OthersRest(s, s', i)
    ensures Nonce(q, i, n) == U32_MAX ==> Iterate(q, s, Turn(i, false)).workers[i].Quit?
  {
    if s.workers[i].Quit? {
      var k: nat :| k < n && Nonce(q, i, k) == U32_MAX;
      assert k < n + 1;
    } else if Nonce(q, i, n) == U32_MAX {
      assert n < n + 1;
    }
  }

  lemma AloneSnoc(q: Scan, turns: seq<Turn>, i: nat, n: nat)
    ensures Run(q, turns + Alone(i, n + 1)) == Iterate(q, Run(q, turns + Alone(i, n)), Turn(i, false))
  {
    var all := turns + Alone(i, n + 1);
    assert all[..|all| - 1] == turns + Alone(i, n);
  }

  /** If nothing qualifies, turns alone take a fresh worker to its end; nobody else moves. */
  lemma {:induction false} AloneSweeps(q: Scan, turns: seq<Turn>, i: nat, n: nat)
    requires Valid(q) && i < q.threads
    requires forall r: nat :: r < U32_MAX ==> !q.hits(r)
    requires Run(q, turns).workers[i] == Scanning(i)
    ensures var s' := Run(q, turns + Alone(i, n));
            At(q, s'.workers[i], i, n) && OthersRest(Run(q, turns), s', i)
  {
    if n == 0 {
      assert turns + Alone(i, 0) == turns;
    } else {
      AloneSweeps(q, turns, i, n - 1);
      AloneSnoc(q, turns, i, n - 1);
      FruitlessTurn(q, Run(q, turns + Alone(i, n - 1)), i, n - 1);
    }
  }

  lemma AloneQuits(q: Scan, turns: seq<Turn>, i: nat, k: nat)
    requires Valid(q) && i < q.threads && Nonce(q, i, k) == U32_MAX
    requires forall r: nat :: r < U32_MAX ==> !q.hits(r)
    requires Run(q, turns).workers[i] == Scanning(i)
    ensures var s' := Run(q, turns + Alone(i, k + 1));
            s'.workers[i].Quit? && OthersRest(Run(q, turns), s', i)
  {
    AloneSweeps(q, turns, i, k);
    AloneSnoc(q, turns, i, k);
    FruitlessTurn(q, Run(q, turns + Alone(i, k)), i, k);
  }

  /** One worker after the other gives up. */
  lemma {:induction false} SweepUpTo(q: Scan, n: nat) returns (turns: seq<Turn>)
    requires Valid(q) && q.threads % 2 == 1 && n <= q.threads
    requires forall r: nat :: r < U32_MAX ==> !q.hits(r)
    ensures !Run(q, turns).found
    ensures forall i :: 0 <= i < q.threads ==>
              Run(q, turns).workers[i] == if i < n then Quit else Scanning(i)
  {
    if n == 0 {
      turns := [];
    } else {
      turns := SweepUpTo(q, n - 1);
      var k := OddStepReachesMax(q, n - 1);
      AloneQuits(q, turns, n - 1, k);
      turns := turns + Alone(n - 1, k + 1);
    }
  }

  lemma EndsWithoutHitIff(q: Scan)
    requires Valid(q)
    ensures (exists turns :: Finished(Run(q, turns)) && !SomeHit(Run(q, turns))) <==>
            q.threads % 2 == 1 && forall r: nat :: r < U32_MAX ==> !q.hits(r)
  {
    if exists turns :: Finished(Run(q, turns)) && !SomeHit(Run(q, turns)) {
      var turns :| Finished(Run(q, turns)) && !SomeHit(Run(q, turns));
      NoHitIsComplete(q, turns);
      if q.threads % 2 == 0 { EvenThreadsNeverGiveUp(q, turns); }
    }
    if q.threads % 2 == 1 && forall r: nat :: r < U32_MAX ==> !q.hits(r) {
      var turns := SweepUpTo(q, q.threads);
      assert Finished(Run(q, turns)) && !SomeHit(Run(q, turns));
    }
  }

  // ----- what the caller is told -----

  /** The caller can get r from this interleaving: no worker is scanning any more, and of the finds
      any may be picked. */
  ghost predicate MayReport(q: Search, turns: seq<Turn>, r: Option<(string, string)>) {
    var s := Run(ScanOf(q), turns);
    Finished(s) && exists pick: nat ::
      (SomeHit(s) ==> pick < |s.workers| && s.workers[pick].Hit?) && Report(q, s, pick) == r
  }

  /** No signature with a nonce below the 32-bit maximum has a selector with the wanted zeroes. */
  ghost predicate NoneHasZeroes(q: Search) {
    forall nonce: nat :: nonce < U32_MAX ==>
      LeadingZeroes(q.hash(q.name + Digits(nonce, 10) + "(" + q.params)[..4]) != q.zeroes
  }

  lemma HitsAreZeroes(q: Search)
    ensures NoneHasZeroes(q) <==> forall r: nat :: r < U32_MAX ==> !ScanOf(q).hits(r)
  {
    assert forall r: nat :: ScanOf(q).hits(r) <==> Qualifies(q, r);
    if forall r: nat :: r < U32_MAX ==> !ScanOf(q).hits(r) {
      forall nonce: nat | nonce < U32_MAX
        ensures LeadingZeroes(q.hash(q.name + Digits(nonce, 10) + "(" + q.params)[..4]) != q.zeroes
      {
        assert !ScanOf(q).hits(nonce);
      }
    }
    if NoneHasZeroes(q) {
      forall r: nat | r < U32_MAX ensures !ScanOf(q).hits(r) {
        assert LeadingZeroes(q.hash(q.name + Digits(r, 10) + "(" + q.params)[..4]) != q.zeroes;
      }
    }
  }

  lemma ReportsNoneIff(q: Search, turns: seq<Turn>)
    ensures MayReport(q, turns, None) <==>
            Finished(Run(ScanOf(q), turns)) && !SomeHit(Run(ScanOf(q), turns))
  {
    var s := Run(ScanOf(q), turns);
    if Finished(s) && !SomeHit(s) {
      assert Report(q, s, 0) == None;
    }
  }

  /** "No selector found" is only reported when no signature that could be tried has a selector with
      the wanted number of leading zero bytes. */
  lemma NotFoundIsComplete(q: Search, turns: seq<Turn>)
    requires 1 <= q.threads < U32_LIMIT && MayReport(q, turns, None)
    ensures NoneHasZeroes(q)
  {
    ReportsNoneIff(q, turns);
    NoHitIsComplete(ScanOf(q), turns);
    HitsAreZeroes(q);
  }

  /** Some interleaving reports "No selector found" exactly when no such signature exists and the
      number of threads is odd. */
  lemma GivesUpIff(q: Search)
    requires 1 <= q.threads < U32_LIMIT
    ensures (exists turns :: MayReport(q, turns, None)) <==> q.threads % 2 == 1 && NoneHasZeroes(q)
  {
    EndsWithoutHitIff(ScanOf(q));
    HitsAreZeroes(q);
    if turns :| MayReport(q, turns, None) { ReportsNoneIff(q, turns); }
    if turns :| Finished(Run(ScanOf(q), turns)) && !SomeHit(Run(ScanOf(q), turns)) { ReportsNoneIff(q, turns); }
  }

  // ----- the command -----

  /** Splits at the first opening parenthesis. */
  function SplitOnce(s: string): (r: Option<(string, string)>)
    ensures r.Some? ==> s == r.value.0 + "(" + r.value.1 && '(' !in r.value.0
    ensures r.None? ==> '(' !in s
  {
    if s == "" then None
    else if s[0] == '(' then Some(("", s[1..]))
    else
      match SplitOnce(s[1..])
      case None => None
      case Some((name, params)) => Some(([s[0]] + name, params))
  }

  /** The search a signature gives rise to. */
  function SearchFor(signature: string, zeroes: nat, threads: nat, hash: string -> Digest): (q: Option<Search>)
  {
    match SplitOnce(signature)
    case None => None
    case Some((name, params)) => Some(Search(name, params, zeroes, threads, hash))
  }

  /** A signature is searched for exactly if it has a parenthesis, with the zeroes, threads and hash
      given; any input tried is the signature with the nonce's digits in front of its first
      parenthesis. */
  lemma InputInsertsNonce(signature: string, zeroes: nat, threads: nat, hash: string -> Digest, nonce: nat)
    ensures SearchFor(signature, zeroes, threads, hash).Some? <==> '(' in signature
    ensures '(' in signature ==>
            var q := SearchFor(signature, zeroes, threads, hash).value;
            var at := |q.name|;
            && q.zeroes == zeroes && q.threads == threads && q.hash == hash
            && at < |signature| && signature[at] == '(' && '(' !in signature[..at]
            && Input(q, nonce) == q.name + Digits(nonce, 10) + "(" + q.params
            && Input(q, nonce) == signature[..at] + Digits(nonce, 10) + signature[at..]
  {
    if SearchFor(signature, zeroes, threads, hash).Some? {
      var q := SearchFor(signature, zeroes, threads, hash).value;
      InsertAt(q.name, Digits(nonce, 10), q.params);
      assert q.name + ("(" + q.params) == q.name + "(" + q.params;
      assert signature[|q.name|] == '(';
    }
  }

  lemma InsertAt(name: string, digits: string, params: string)
    ensures var s := name + ("(" + params);
            && s[..|name|] == name && s[|name|..] == "(" + params
            && name + digits + "(" + params == name + digits + ("(" + params)
  {
  }
}

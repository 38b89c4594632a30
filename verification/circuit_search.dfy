/** `attempt_to_create_circuit` and the loop of `main` that calls it once per located
    character node. The climb and descent phases it calls are not defined in the
    repository, so they are parameters here. */
module CircuitSearch {
  import opened Outcomes
  import opened CircuitCheck
  import opened Observations

  /** The tries-remaining value of the last try a budget of `triesRemaining` allows: tries
      are made at triesRemaining, triesRemaining - 1, ..., down to this value. */
  function LastTry(triesRemaining: int): int
  {
    if triesRemaining < 0 then triesRemaining else 0
  }

  /** The number of tries a budget allows, `max(1, triesRemaining + 1)`. */
  function Budget(triesRemaining: int): nat
  {
    triesRemaining - LastTry(triesRemaining) + 1
  }

  /** A try that returned `(False, step_count)`, the only outcome that is retried. */
  predicate Failed(v: Verdict)
  {
    v.Returned? && !v.valid
  }

  /** Lines 135-145 of attempt_to_create_circuit, the retry logic: `tryAt(t)` is the verdict
      of the try made while `t` tries remain. A success is returned at once, a ValueError
      propagates uncaught, and a failure is retried while the decremented budget is >= 0. */
  function Retry(tryAt: int -> Verdict, triesRemaining: int): (r: Verdict)
    ensures exists t :: LastTry(triesRemaining) <= t <= triesRemaining && r == tryAt(t)
    ensures Failed(r) ==> forall t :: LastTry(triesRemaining) <= t <= triesRemaining ==> Failed(tryAt(t))
    decreases if triesRemaining < 0 then 0 else triesRemaining
  {
    var result := tryAt(triesRemaining);
    var left := triesRemaining - 1;
    match result
    case LimitExceeded(_) => result
    case Returned(valid, stepCount) =>
      if valid then Returned(true, stepCount)
      else if left >= 0 then Retry(tryAt, left)
      else Returned(false, stepCount)
  }

  /** How many tries Retry makes before it returns or raises. */
  function TriesMade(tryAt: int -> Verdict, triesRemaining: int): nat
    decreases if triesRemaining < 0 then 0 else triesRemaining
  {
    if Failed(tryAt(triesRemaining)) && triesRemaining - 1 >= 0 then 1 + TriesMade(tryAt, triesRemaining - 1)
    else 1
  }

  /** The first try that does not fail decides the outcome, and no later try is made. */
  lemma {:induction false} RetryStopsAtFirstDecisiveTry(tryAt: int -> Verdict, triesRemaining: int, t: int)
    requires LastTry(triesRemaining) <= t <= triesRemaining
    requires forall u :: t < u <= triesRemaining ==> Failed(tryAt(u))
    requires !Failed(tryAt(t))
    ensures Retry(tryAt, triesRemaining) == tryAt(t)
    ensures TriesMade(tryAt, triesRemaining) == triesRemaining - t + 1
    decreases triesRemaining - t
  {
    if t < triesRemaining {
      assert Failed(tryAt(triesRemaining));
      RetryStopsAtFirstDecisiveTry(tryAt, triesRemaining - 1, t);
    }
  }

  /** When every try fails the whole budget is spent, `max(1, triesRemaining + 1)` tries,
      and the failure of the last try is returned. */
  lemma {:induction false} RetryExhaustsBudget(tryAt: int -> Verdict, triesRemaining: int)
    requires forall u :: LastTry(triesRemaining) <= u <= triesRemaining ==> Failed(tryAt(u))
    ensures Retry(tryAt, triesRemaining) == tryAt(LastTry(triesRemaining))
    ensures Failed(Retry(tryAt, triesRemaining))
    ensures TriesMade(tryAt, triesRemaining) == Budget(triesRemaining)
    decreases if triesRemaining < 0 then 0 else triesRemaining
  {
    assert Failed(tryAt(triesRemaining));
    if triesRemaining - 1 >= 0 {
      RetryExhaustsBudget(tryAt, triesRemaining - 1);
    }
  }

  /** A try never exceeds the budget: at least one, at most `max(1, triesRemaining + 1)`. */
  lemma {:induction false} TriesWithinBudget(tryAt: int -> Verdict, triesRemaining: int)
    ensures 1 <= TriesMade(tryAt, triesRemaining) <= Budget(triesRemaining)
    decreases if triesRemaining < 0 then 0 else triesRemaining
  {
    if Failed(tryAt(triesRemaining)) && triesRemaining - 1 >= 0 {
      TriesWithinBudget(tryAt, triesRemaining - 1);
    }
  }

  /** The graph operations a try calls, none of which the repository defines:
      find_node_that_goes_up, step_up, find_node_that_does_not_go_down and step_forward.
      Each also takes the try's tries-remaining value, standing for the random choices
      that let one try take a different path from the next. */
  datatype Phases = Phases(
    goesUp: (int, Address) -> Address,
    stepUp: (int, Address) -> Address,
    doesNotGoDown: (int, Address) -> Address,
    stepForward: (int, Address) -> Address)

  /** Lines 127-135: climb from the character node, descend from the big node, then check
      the circuit from there with the default step count and limit. */
  function TryOnce(phases: Phases, character: Address, origin: Address, triesRemaining: int): Verdict
  {
    var objectThatGoesUp := phases.goesUp(triesRemaining, character);
    var bigObject := phases.stepUp(triesRemaining, objectThatGoesUp);
    var pathObject := phases.doesNotGoDown(triesRemaining, bigObject);
    CheckCircuitValidity(pathObject, origin, character, a => phases.stepForward(triesRemaining, a), 0, DefaultStepLimit)
  }

  /** attempt_to_create_circuit(character_object, origin_object, tries_remaining). Every
      verdict it returns comes from one try, so its step count lies in 1..32 and a raised
      error names the default limit; when the origin is the character node it never fails. */
  function AttemptToCreateCircuit(phases: Phases, character: Address, origin: Address, triesRemaining: int): (r: Verdict)
    ensures r.Returned? ==> 1 <= r.stepCount <= DefaultStepLimit
    ensures r.LimitExceeded? ==> r.stepLimit == DefaultStepLimit
    ensures origin == character ==> !Failed(r)
  {
    Retry(t => TryOnce(phases, character, origin, t), triesRemaining)
  }

  /** Lines 231-234 of main: one attempt per candidate, in the order given, with its
      observation count as the budget. `main` passes the keys of the counting dictionary in
      insertion order, the order CountCharacterObjects returns. A ValueError ends the loop. */
  function SearchCandidates(phases: Phases, origin: Address, candidates: seq<Address>, counts: map<Address, int>): (results: seq<Verdict>)
    requires forall a :: a in candidates ==> a in counts
    ensures |results| <= |candidates|
    ensures forall i :: 0 <= i < |results| ==>
              results[i] == AttemptToCreateCircuit(phases, candidates[i], origin, counts[candidates[i]])
    ensures forall i :: 0 <= i < |results| - 1 ==> results[i].Returned?
    ensures |results| < |candidates| ==> |results| > 0 && results[|results| - 1].LimitExceeded?
  {
    if |candidates| == 0 then []
    else
      var r := AttemptToCreateCircuit(phases, candidates[0], origin, counts[candidates[0]]);
      if r.LimitExceeded? then [r]
      else
        var rest := SearchCandidates(phases, origin, candidates[1..], counts);
        assert forall i :: 0 < i <= |rest| ==> ([r] + rest)[i] == rest[i - 1] && candidates[i] == candidates[1..][i - 1];
        [r] + rest
  }

  /** The tries the loop of lines 231-234 makes, summed over the candidates it reaches. */
  function TriesSpent(phases: Phases, origin: Address, candidates: seq<Address>, counts: map<Address, int>): nat
    requires forall a :: a in candidates ==> a in counts
  {
    if |candidates| == 0 then 0
    else
      var a := candidates[0];
      var tryAt := t => TryOnce(phases, a, origin, t);
      var made := TriesMade(tryAt, counts[a]);
      if Retry(tryAt, counts[a]).LimitExceeded? then made
      else made + TriesSpent(phases, origin, candidates[1..], counts)
  }

  /** With non-negative observation counts, the loop makes at most `count + 1` tries per
      candidate: at most the counts' sum plus the number of candidates. After
      CountCharacterObjects that sum is the number of origins. */
  lemma {:induction false} SearchTriesBoundedByCounts(phases: Phases, origin: Address, candidates: seq<Address>, counts: map<Address, int>)
    requires forall a :: a in candidates ==> a in counts && counts[a] >= 0
    ensures TriesSpent(phases, origin, candidates, counts) <= SumOver(candidates, counts) + |candidates|
  {
    if |candidates| > 0 {
      var a := candidates[0];
      TriesWithinBudget(t => TryOnce(phases, a, origin, t), counts[a]);
      SumOverFront(candidates, counts);
      SearchTriesBoundedByCounts(phases, origin, candidates[1..], counts);
    }
  }
}

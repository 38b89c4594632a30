/** `check_circuit_validity`: the bounded forward walk that decides whether a try closed
    a circuit through the origin (success) or through the character node only (failure). */
module CircuitCheck {
  import opened Outcomes

  /** The default `step_limit` of check_circuit_validity. */
  const DefaultStepLimit := 32

  /** What check_circuit_validity produces: the `(valid, step_count)` tuple it returns,
      or the ValueError, carrying the limit its message names, that it raises. */
  datatype Verdict = Returned(valid: bool, stepCount: int) | LimitExceeded(stepLimit: int)

  /** The node reached after `n` forward steps from `a`. */
  function Iterate(stepForward: Address -> Address, n: nat, a: Address): Address
  {
    if n == 0 then a else Iterate(stepForward, n - 1, stepForward(a))
  }

  /** The walk stops at the origin or at the character node. */
  predicate Stops(a: Address, origin: Address, character: Address)
  {
    a == origin || a == character
  }

  /** check_circuit_validity with the step limit passed on at every level, as the firm
      limit its comment promises; see CheckCircuitValidityAsWritten for the code as written. */
  function CheckCircuitValidity(path: Address, origin: Address, character: Address,
                                stepForward: Address -> Address, stepCount: int, stepLimit: int): (r: Verdict)
    ensures r.Returned? ==> stepCount < r.stepCount <= stepLimit
    ensures r.LimitExceeded? ==> r.stepLimit == stepLimit
    ensures r.Returned? ==>
              var node := Iterate(stepForward, r.stepCount - stepCount - 1, path);
              && (r.valid ==> node == origin)
              && (!r.valid ==> node == character && node != origin)
    decreases stepLimit - stepCount
  {
    var count := stepCount + 1;
    if count > stepLimit then LimitExceeded(stepLimit)
    else if path == origin then Returned(true, count)
    else if path == character then Returned(false, count)
    else CheckCircuitValidity(stepForward(path), origin, character, stepForward, count, stepLimit)
  }

  /** None of the first `n` nodes of the walk from `path` is the origin or the character node. */
  predicate NoStopBefore(stepForward: Address -> Address, n: int, path: Address, origin: Address, character: Address)
  {
    forall j: nat :: j < n ==> !Stops(Iterate(stepForward, j, path), origin, character)
  }

  lemma NoStopBeforeShift(stepForward: Address -> Address, n: int, path: Address, origin: Address, character: Address)
    requires n >= 1
    ensures NoStopBefore(stepForward, n, path, origin, character)
        <==> !Stops(path, origin, character) && NoStopBefore(stepForward, n - 1, stepForward(path), origin, character)
  {
    var next := stepForward(path);
    assert Iterate(stepForward, 0, path) == path;
    forall j: nat ensures Iterate(stepForward, j + 1, path) == Iterate(stepForward, j, next) {
    }
    if !Stops(path, origin, character) && NoStopBefore(stepForward, n - 1, next, origin, character) {
      forall j: nat | j < n
        ensures !Stops(Iterate(stepForward, j, path), origin, character)
      {
        if j > 0 {
          assert Iterate(stepForward, j, path) == Iterate(stepForward, j - 1, next);
        }
      }
    }
  }

  /** The walk raises exactly when none of the nodes it may still visit is the origin or
      the character node; when it returns, it returns at the first node that is. */
  lemma {:induction false} CheckCircuitValidityStopsAtFirstStop(path: Address, origin: Address, character: Address,
                                                                stepForward: Address -> Address, stepCount: int, stepLimit: int)
    ensures var r := CheckCircuitValidity(path, origin, character, stepForward, stepCount, stepLimit);
            && (r.LimitExceeded? <==> NoStopBefore(stepForward, stepLimit - stepCount, path, origin, character))
            && (r.Returned? ==> NoStopBefore(stepForward, r.stepCount - stepCount - 1, path, origin, character))
    decreases stepLimit - stepCount
  {
    var r := CheckCircuitValidity(path, origin, character, stepForward, stepCount, stepLimit);
    if stepCount + 1 <= stepLimit {
      NoStopBeforeShift(stepForward, stepLimit - stepCount, path, origin, character);
      if !Stops(path, origin, character) {
        var next := stepForward(path);
        CheckCircuitValidityStopsAtFirstStop(next, origin, character, stepForward, stepCount + 1, stepLimit);
        assert r == CheckCircuitValidity(next, origin, character, stepForward, stepCount + 1, stepLimit);
        if r.Returned? {
          NoStopBeforeShift(stepForward, r.stepCount - stepCount - 1, path, origin, character);
        }
      }
    }
  }

  /** Starting at the origin with the default arguments gives `(True, 1)`. */
  lemma CheckFromOriginSucceedsAtOnce(origin: Address, character: Address, stepForward: Address -> Address)
    ensures CheckCircuitValidity(origin, origin, character, stepForward, 0, DefaultStepLimit) == Returned(true, 1)
  {
  }

  /** The origin is tested before the character node, so when they are the same node
      the walk never reports failure. */
  lemma OriginIsCharacterNeverInvalid(path: Address, origin: Address, stepForward: Address -> Address, stepCount: int, stepLimit: int)
    ensures CheckCircuitValidity(path, origin, origin, stepForward, stepCount, stepLimit).Returned? ==>
              CheckCircuitValidity(path, origin, origin, stepForward, stepCount, stepLimit).valid
  {
  }

  /** check_circuit_validity as written: the recursive call leaves `step_limit` out, so
      every node after the first is checked against the default of 32. */
  function CheckCircuitValidityAsWritten(path: Address, origin: Address, character: Address,
                                         stepForward: Address -> Address, stepCount: int, stepLimit: int): (r: Verdict)
    ensures r.LimitExceeded? ==> r.stepLimit == stepLimit || r.stepLimit == DefaultStepLimit
    ensures r.Returned? ==> stepCount < r.stepCount
    decreases if stepLimit == DefaultStepLimit then 0 else 1, DefaultStepLimit - stepCount
  {
    var count := stepCount + 1;
    if count > stepLimit then LimitExceeded(stepLimit)
    else if path == origin then Returned(true, count)
    else if path == character then Returned(false, count)
    else CheckCircuitValidityAsWritten(stepForward(path), origin, character, stepForward, count, DefaultStepLimit)
  }

  /** At the default limit, the only one attempt_to_create_circuit uses, the code as
      written and the corrected walk agree. */
  lemma {:induction false} AsWrittenAgreesAtDefaultLimit(path: Address, origin: Address, character: Address,
                                                         stepForward: Address -> Address, stepCount: int)
    ensures CheckCircuitValidityAsWritten(path, origin, character, stepForward, stepCount, DefaultStepLimit)
         == CheckCircuitValidity(path, origin, character, stepForward, stepCount, DefaultStepLimit)
    decreases DefaultStepLimit - stepCount
  {
    if stepCount + 1 <= DefaultStepLimit && !Stops(path, origin, character) {
      AsWrittenAgreesAtDefaultLimit(stepForward(path), origin, character, stepForward, stepCount + 1);
    }
  }

  /** With a caller's limit below 32, the code as written walks past it: when the first
      `stepLimit` nodes are neither origin nor character node and the next is the origin,
      it returns `(True, stepLimit + 1)` where the corrected walk raises. */
  lemma {:induction false} AsWrittenOverrunsSmallLimit(path: Address, origin: Address, character: Address,
                                                       stepForward: Address -> Address, stepLimit: int)
    requires 1 <= stepLimit < DefaultStepLimit
    requires NoStopBefore(stepForward, stepLimit, path, origin, character)
    requires Iterate(stepForward, stepLimit, path) == origin
    ensures CheckCircuitValidityAsWritten(path, origin, character, stepForward, 0, stepLimit) == Returned(true, stepLimit + 1)
    ensures CheckCircuitValidity(path, origin, character, stepForward, 0, stepLimit) == LimitExceeded(stepLimit)
  {
    CheckCircuitValidityStopsAtFirstStop(path, origin, character, stepForward, 0, stepLimit);
    NoStopBeforeShift(stepForward, stepLimit, path, origin, character);
    var next := stepForward(path);
    assert Iterate(stepForward, stepLimit - 1, next) == origin;
    AsWrittenAgreesAtDefaultLimit(next, origin, character, stepForward, 1);
    CheckCircuitValidityStopsAtFirstStop(next, origin, character, stepForward, 1, DefaultStepLimit);
    var r := CheckCircuitValidity(next, origin, character, stepForward, 1, DefaultStepLimit);
    assert !NoStopBefore(stepForward, DefaultStepLimit - 1, next, origin, character);
    assert r.Returned?;
    assert r.stepCount - 2 <= stepLimit - 1;
    assert r.stepCount == stepLimit + 1;
  }
}

/**
 * `bulkOperation`: for every value of an operation set, call each named
 * catalogue function on the value alone, record the results in order, and
 * on request reduce them to an AND and an OR verdict.
 *
 * The dispatcher looks the name up on the `ValidationFunctions` class and
 * calls what it finds with one argument. Per-operation arguments are never
 * passed, so a function with further parameters sees `undefined` there, and
 * a name that is not a function of the class throws, which ends the whole
 * batch. The specification functions `Invoke`, `Evaluate` and `Batch` say
 * what one call, one value and one batch produce; the method
 * `BulkOperation` builds the same answer with the source's loops.
 */
module BulkOperation {
  import opened Results
  import opened Text
  import V = ValidationFunctions

  /** What a catalogue function hands back to the dispatcher. */
  datatype OperationResult =
    | Bool(b: bool)
    | Str(s: string)
      /** `isCountry` is `async`: without `await`, the dispatcher records a promise. */
    | Pending

  /** An exception that escapes the dispatcher and aborts the batch. */
  datatype Thrown =
      /** `ValidationFunctions[operation]` is not a function of the class. */
    | NotAFunction(operation: string)
      /** `includeOnlyTheseCharacters` reads `join` of its missing second argument. */
    | CannotReadJoin

  /** One entry of the operation set. */
  datatype ValueRequest = ValueRequest(
    value: string,
    operations: seq<string>,
    getAndBooleanResult: bool,
    getOrBooleanResult: bool)

  /** One `{operation, result}` record. */
  datatype Outcome = Outcome(operation: string, result: OperationResult)

  /** The record built for one value; a verdict that was not requested is absent. */
  datatype ValueResult = ValueResult(
    originalValue: string,
    results: seq<Outcome>,
    andBooleanResult: Option<bool>,
    orBooleanResult: Option<bool>)

  /** Whether `name` is one of the static methods of the class. */
  predicate IsMethod(name: string) {
    name == "onlyNumbers"
    || name == "isInteger"
    || name == "onlyLetters"
    || name == "onlySpecialCharacters"
    || name == "isEmailAddress"
    || name == "trim"
    || name == "excludeTheseCharacters"
    || name == "isPhoneNumber"
    || name == "isAlphaNumeric"
    || name == "isZipCode"
    || name == "isLowercase"
    || name == "isHexadecimal"
    || name == "isDecimal"
    || name == "isBinaryString"
    || name == "isAllCaps"
    || name == "isUrl"
    || name == "isDate"
    || name == "includeOnlyTheseCharacters"
    || name == "isBoolean"
    || name == "isEqual"
    || name == "contains"
    || name == "isCountry"
    || name == "isValidStateCode"
    || name == "isLatLong"
  }

  /** How the missing argument `undefined` reads once it is turned into a string. */
  const Undefined := "undefined"

  /**
   * `ValidationFunctions[operation](value)`: a name that is not a static
   * method of the class is not a function and the call throws.
   */
  function Invoke(operation: string, value: string): Result<OperationResult, Thrown> {
    if !IsMethod(operation) then Failure(NotAFunction(operation))
    else if operation == "includeOnlyTheseCharacters" then Failure(CannotReadJoin)
    else Success(Call(operation, value))
  }

  /**
   * The call of a method of the class with `value` as its only argument.
   * Missing arguments are `undefined`: `excludeTheseCharacters` builds the
   * class `[undefined]`, `contains` looks for the text "undefined",
   * `isZipCode` and `isEqual` fail their argument checks, and `isLatLong`
   * takes its default options.
   */
  function Call(operation: string, value: string): OperationResult
    requires IsMethod(operation) && operation != "includeOnlyTheseCharacters"
  {
    if operation == "onlyNumbers" then Str(V.OnlyNumbers(value))
    else if operation == "isInteger" then Bool(V.IsInteger(value))
    else if operation == "onlyLetters" then Str(V.OnlyLetters(value))
    else if operation == "onlySpecialCharacters" then Str(V.OnlySpecialCharacters(value))
    else if operation == "isEmailAddress" then Bool(V.IsEmailAddress(value))
    else if operation == "trim" then Str(Trimmed(value))
    else if operation == "excludeTheseCharacters" then Str(V.ExcludeTheseCharacters(value, Undefined))
    else if operation == "isPhoneNumber" then Bool(V.IsPhoneNumber(value))
    else if operation == "isAlphaNumeric" then Bool(V.IsAlphaNumeric(value))
    else if operation == "isZipCode" then Bool(false)
    else if operation == "isLowercase" then Bool(V.IsLowercase(value))
    else if operation == "isHexadecimal" then Bool(V.IsHexadecimal(value))
    else if operation == "isDecimal" then Bool(V.IsDecimal(value))
    else if operation == "isBinaryString" then Bool(V.IsBinaryString(value))
    else if operation == "isAllCaps" then Bool(V.IsAllCaps(value))
    else if operation == "isUrl" then Bool(V.IsUrl(value))
    else if operation == "isDate" then Bool(V.IsDate(value))
    else if operation == "isBoolean" then Bool(V.IsBoolean(value))
    else if operation == "isEqual" then Bool(false)
    else if operation == "contains" then Bool(V.Contains(value, Undefined))
    else if operation == "isCountry" then Pending
    else if operation == "isValidStateCode" then Bool(V.IsValidStateCode(value))
    else Bool(V.IsLatLong(value, false))
  }

  /**
   * Which calls throw: exactly a name outside the class, reported as not a
   * function, and `includeOnlyTheseCharacters`, which cannot read `join`.
   */
  lemma InvokeThrows(operation: string, value: string)
    ensures Invoke(operation, value).Failure? <==> !IsMethod(operation) || operation == "includeOnlyTheseCharacters"
    ensures Invoke(operation, value).Failure? ==>
      Invoke(operation, value).error == (if IsMethod(operation) then CannotReadJoin else NotAFunction(operation))
  {
  }

  /** What the calls that return hand back: `isCountry` alone a promise, the five filters alone strings. */
  lemma CallResultKinds(operation: string, value: string)
    requires IsMethod(operation) && operation != "includeOnlyTheseCharacters"
    ensures Call(operation, value) == Pending <==> operation == "isCountry"
    ensures Call(operation, value).Str? <==>
      operation in {"onlyNumbers", "onlyLetters", "onlySpecialCharacters", "trim", "excludeTheseCharacters"}
  {
    CallPending(operation, value);
    CallStrings(operation, value);
  }

  /** Only `isCountry` hands back a promise. */
  lemma CallPending(operation: string, value: string)
    requires IsMethod(operation) && operation != "includeOnlyTheseCharacters"
    ensures Call(operation, value) == Pending <==> operation == "isCountry"
  {
  }

  /** Only the five filters hand back strings. */
  lemma CallStrings(operation: string, value: string)
    requires IsMethod(operation) && operation != "includeOnlyTheseCharacters"
    ensures Call(operation, value).Str? <==>
      operation in {"onlyNumbers", "onlyLetters", "onlySpecialCharacters", "trim", "excludeTheseCharacters"}
  {
  }

  /** `result === true`: only the boolean `true` counts, never a string or a promise. */
  predicate IsTrue(o: Outcome) {
    o.result == Bool(true)
  }

  /** `results.every(r => r.result === true)`. */
  predicate Every(results: seq<Outcome>) {
    forall i :: 0 <= i < |results| ==> IsTrue(results[i])
  }

  /** `results.some(r => r.result === true)`. */
  predicate Any(results: seq<Outcome>) {
    exists i :: 0 <= i < |results| && IsTrue(results[i])
  }

  /**
   * What calling each named method on one value gives. The calls are pure,
   * so the evaluation below depends on nothing else about them.
   */
  type Caller = string -> Result<OperationResult, Thrown>

  /** `operation => ValidationFunctions[operation](value)` for one value. */
  function CallerFor(value: string): Caller {
    operation => Invoke(operation, value)
  }

  /**
   * The results for one value, operation by operation in order; the first
   * exception stops the evaluation and is what comes out.
   */
  function Evaluate(call: Caller, operations: seq<string>): Result<seq<Outcome>, Thrown>
    decreases |operations|
  {
    if operations == [] then Success([])
    else
      var n := |operations| - 1;
      match Evaluate(call, operations[..n])
      case Failure(e) => Failure(e)
      case Success(done) =>
        match call(operations[n])
        case Failure(e) => Failure(e)
        case Success(x) => Success(done + [Outcome(operations[n], x)])
  }

  /** The record for one value once its results are known. */
  function Summary(request: ValueRequest, results: seq<Outcome>): ValueResult {
    ValueResult(
      request.value,
      results,
      if request.getAndBooleanResult then Some(Every(results)) else None,
      if request.getOrBooleanResult then Some(Any(results)) else None)
  }

  /** How the results for one entry of the operation set come about. */
  type Evaluator = ValueRequest -> Result<seq<Outcome>, Thrown>

  /** The evaluation of one entry of the operation set by the dispatcher. */
  function EvaluateRequest(request: ValueRequest): Result<seq<Outcome>, Thrown> {
    Evaluate(CallerFor(request.value), request.operations)
  }

  /**
   * The whole batch, value by value in order, given how one value is
   * evaluated; an exception for any value aborts it.
   */
  function Batch(evaluate: Evaluator, operationSet: seq<ValueRequest>): Result<seq<ValueResult>, Thrown>
    decreases |operationSet|
  {
    if operationSet == [] then Success([])
    else
      var n := |operationSet| - 1;
      match Batch(evaluate, operationSet[..n])
      case Failure(e) => Failure(e)
      case Success(done) =>
        match evaluate(operationSet[n])
        case Failure(e) => Failure(e)
        case Success(results) => Success(done + [Summary(operationSet[n], results)])
  }

  /** The dispatcher, as the source writes it: a loop over the values that pushes one record each. */
  method BulkOperation(operationSet: seq<ValueRequest>) returns (r: Result<seq<ValueResult>, Thrown>)
    ensures r == Batch(EvaluateRequest, operationSet)
  {
    var results: seq<ValueResult> := [];
    var i := 0;
    while i < |operationSet|
      invariant 0 <= i <= |operationSet|
      invariant Batch(EvaluateRequest, operationSet[..i]) == Success(results)
    {
      var request := operationSet[i];
      var outcomes := EvaluateOperations(CallerFor(request.value), request.operations);
      assert operationSet[..i + 1][..i] == operationSet[..i];
      if outcomes.Failure? {
        BatchStopsAt(EvaluateRequest, operationSet, i);
        return Failure(outcomes.error);
      }
      var valueResult := Summary(request, outcomes.value);
      results := results + [valueResult];
      i := i + 1;
    }
    assert operationSet[..i] == operationSet;
    return Success(results);
  }

  /**
   * The inner loop of the dispatcher: each operation called on the value in
   * turn, its record pushed; an exception leaves the loop at once.
   */
  method EvaluateOperations(call: Caller, operations: seq<string>) returns (r: Result<seq<Outcome>, Thrown>)
    ensures r == Evaluate(call, operations)
  {
    var outcomes: seq<Outcome> := [];
    var j := 0;
    while j < |operations|
      invariant 0 <= j <= |operations|
      invariant Evaluate(call, operations[..j]) == Success(outcomes)
    {
      var operation := operations[j];
      var result := call(operation);
      assert operations[..j + 1][..j] == operations[..j];
      if result.Failure? {
        EvaluateStopsAt(call, operations, j);
        return Failure(result.error);
      }
      outcomes := outcomes + [Outcome(operation, result.value)];
      j := j + 1;
    }
    assert operations[..j] == operations;
    return Success(outcomes);
  }

  /** An exception at operation `j` of value `i`, with all before it succeeding, is the batch's outcome. */
  lemma FailureStopsBatch(operationSet: seq<ValueRequest>, i: nat, j: nat)
    requires i < |operationSet| && j < |operationSet[i].operations|
    requires Batch(EvaluateRequest, operationSet[..i]).Success?
    requires Evaluate(CallerFor(operationSet[i].value), operationSet[i].operations[..j]).Success?
    requires Invoke(operationSet[i].operations[j], operationSet[i].value).Failure?
    ensures Batch(EvaluateRequest, operationSet) == Failure(Invoke(operationSet[i].operations[j], operationSet[i].value).error)
  {
    var request := operationSet[i];
    EvaluateStopsAt(CallerFor(request.value), request.operations, j);
    BatchStopsAt(EvaluateRequest, operationSet, i);
  }

  /** The first call that throws, after calls that all returned, ends the evaluation with its exception. */
  lemma {:induction false} EvaluateStopsAt(call: Caller, operations: seq<string>, j: nat)
    requires j < |operations|
    requires Evaluate(call, operations[..j]).Success?
    requires call(operations[j]).Failure?
    ensures Evaluate(call, operations) == Failure(call(operations[j]).error)
    decreases |operations|
  {
    var n := |operations| - 1;
    if j == n {
      assert operations[..n] == operations[..j];
    } else {
      assert operations[..n][..j] == operations[..j];
      EvaluateStopsAt(call, operations[..n], j);
    }
  }

  /** The first value whose evaluation throws, after values that all succeeded, ends the batch with its exception. */
  lemma {:induction false} BatchStopsAt(evaluate: Evaluator, operationSet: seq<ValueRequest>, i: nat)
    requires i < |operationSet|
    requires Batch(evaluate, operationSet[..i]).Success?
    requires evaluate(operationSet[i]).Failure?
    ensures Batch(evaluate, operationSet) == Failure(evaluate(operationSet[i]).error)
    decreases |operationSet|
  {
    var n := |operationSet| - 1;
    if i == n {
      assert operationSet[..n] == operationSet[..i];
    } else {
      assert operationSet[..n][..i] == operationSet[..i];
      BatchStopsAt(evaluate, operationSet[..n], i);
    }
  }

  /**
   * One value's evaluation succeeds exactly when every one of its operations
   * does, and then holds one record per operation, in the declared order.
   */
  lemma {:induction false} EvaluateMeaning(call: Caller, operations: seq<string>)
    ensures Evaluate(call, operations).Success? <==>
      forall i :: 0 <= i < |operations| ==> call(operations[i]).Success?
    ensures Evaluate(call, operations).Success? ==>
      var results := Evaluate(call, operations).value;
      |results| == |operations| &&
      forall i :: 0 <= i < |operations| ==> results[i] == Outcome(operations[i], call(operations[i]).value)
    decreases |operations|
  {
    if operations != [] {
      var n := |operations| - 1;
      var prefix := operations[..n];
      EvaluateMeaning(call, prefix);
      assert forall i :: 0 <= i < n ==> prefix[i] == operations[i];
    }
  }

  /** A failed evaluation reports the exception of its first failing operation. */
  lemma {:induction false} EvaluateFailure(call: Caller, operations: seq<string>)
    requires Evaluate(call, operations).Failure?
    ensures exists j :: (0 <= j < |operations| &&
      (forall i :: 0 <= i < j ==> call(operations[i]).Success?) &&
      call(operations[j]) == Failure(Evaluate(call, operations).error))
    decreases |operations|
  {
    var n := |operations| - 1;
    var prefix := operations[..n];
    assert forall i :: 0 <= i < n ==> prefix[i] == operations[i];
    if Evaluate(call, prefix).Failure? {
      EvaluateFailure(call, prefix);
      var j :| 0 <= j < |prefix| &&
        (forall i :: 0 <= i < j ==> call(prefix[i]).Success?) &&
        call(prefix[j]) == Failure(Evaluate(call, prefix).error);
      assert call(operations[j]) == Failure(Evaluate(call, operations).error);
    } else {
      EvaluateMeaning(call, prefix);
      assert call(operations[n]) == Failure(Evaluate(call, operations).error);
    }
  }

  /**
   * A batch succeeds exactly when every value's evaluation does; it then
   * holds one record per value, in input order, each the summary of that
   * value's results.
   */
  lemma {:induction false} BatchMeaning(evaluate: Evaluator, operationSet: seq<ValueRequest>)
    ensures Batch(evaluate, operationSet).Success? <==>
      forall i :: 0 <= i < |operationSet| ==> evaluate(operationSet[i]).Success?
    ensures Batch(evaluate, operationSet).Success? ==>
      var records := Batch(evaluate, operationSet).value;
      |records| == |operationSet| &&
      forall i :: 0 <= i < |operationSet| ==>
        records[i] == Summary(operationSet[i], evaluate(operationSet[i]).value)
    decreases |operationSet|
  {
    if operationSet != [] {
      var n := |operationSet| - 1;
      var prefix := operationSet[..n];
      BatchMeaning(evaluate, prefix);
      assert forall i :: 0 <= i < n ==> prefix[i] == operationSet[i];
    }
  }

  /** A name that is not a static method of the class, anywhere in the set, aborts the batch. */
  lemma UnknownOperationAborts(operationSet: seq<ValueRequest>, i: nat, j: nat)
    requires i < |operationSet| && j < |operationSet[i].operations|
    requires !IsMethod(operationSet[i].operations[j])
    ensures Batch(EvaluateRequest, operationSet).Failure?
  {
    InvokeThrows(operationSet[i].operations[j], operationSet[i].value);
    EvaluateMeaning(CallerFor(operationSet[i].value), operationSet[i].operations);
    BatchMeaning(EvaluateRequest, operationSet);
  }

  /**
   * In a successful batch, a requested AND verdict is `true` exactly when
   * every operation of the value returned the boolean `true`, and a
   * requested OR verdict exactly when one of them did.
   */
  lemma VerdictsMeaning(operationSet: seq<ValueRequest>, i: nat)
    requires i < |operationSet| && Batch(EvaluateRequest, operationSet).Success?
    ensures |Batch(EvaluateRequest, operationSet).value| == |operationSet|
    ensures var request := operationSet[i];
      var record := Batch(EvaluateRequest, operationSet).value[i];
      && (request.getAndBooleanResult <==> record.andBooleanResult.Some?)
      && (request.getOrBooleanResult <==> record.orBooleanResult.Some?)
      && (record.andBooleanResult == Some(true) <==>
          request.getAndBooleanResult && forall j :: 0 <= j < |request.operations| ==> Invoke(request.operations[j], request.value) == Success(Bool(true)))
      && (record.orBooleanResult == Some(true) <==>
          request.getOrBooleanResult && exists j :: 0 <= j < |request.operations| && Invoke(request.operations[j], request.value) == Success(Bool(true)))
  {
    BatchMeaning(EvaluateRequest, operationSet);
    RequestVerdicts(CallerFor(operationSet[i].value), operationSet[i]);
  }

  /** The verdicts of one value, in terms of what its operations returned. */
  lemma RequestVerdicts(call: Caller, request: ValueRequest)
    requires Evaluate(call, request.operations).Success?
    ensures var record := Summary(request, Evaluate(call, request.operations).value);
      && (request.getAndBooleanResult <==> record.andBooleanResult.Some?)
      && (request.getOrBooleanResult <==> record.orBooleanResult.Some?)
      && (record.andBooleanResult == Some(true) <==>
          request.getAndBooleanResult && forall j :: 0 <= j < |request.operations| ==> call(request.operations[j]) == Success(Bool(true)))
      && (record.orBooleanResult == Some(true) <==>
          request.getOrBooleanResult && exists j :: 0 <= j < |request.operations| && call(request.operations[j]) == Success(Bool(true)))
  {
    EvaluateMeaning(call, request.operations);
    var results := Evaluate(call, request.operations).value;
    assert forall j :: 0 <= j < |results| ==> (IsTrue(results[j]) <==> call(request.operations[j]) == Success(Bool(true)));
    SummaryVerdicts(request, results);
  }

  /** The verdicts of a summary, read off its results. */
  lemma SummaryVerdicts(request: ValueRequest, results: seq<Outcome>)
    ensures var record := Summary(request, results);
      && (request.getAndBooleanResult <==> record.andBooleanResult.Some?)
      && (request.getOrBooleanResult <==> record.orBooleanResult.Some?)
      && (record.andBooleanResult == Some(true) <==> request.getAndBooleanResult && Every(results))
      && (record.orBooleanResult == Some(true) <==> request.getOrBooleanResult && Any(results))
  {
  }

  /** With no operations, AND is vacuously `true` and OR is `false`. */
  lemma NoOperations(request: ValueRequest)
    requires request.operations == []
    ensures EvaluateRequest(request) == Success([])
    ensures var record := Summary(request, []);
      && (request.getAndBooleanResult ==> record.andBooleanResult == Some(true))
      && (request.getOrBooleanResult ==> record.orBooleanResult == Some(false))
  {
  }

  /** When there is at least one result, an AND verdict of `true` forces the OR verdict to `true`. */
  lemma AndImpliesOr(request: ValueRequest, results: seq<Outcome>)
    requires |results| > 0 && request.getAndBooleanResult && request.getOrBooleanResult
    ensures Summary(request, results).andBooleanResult == Some(true) ==> Summary(request, results).orBooleanResult == Some(true)
  {
    if Every(results) {
      assert IsTrue(results[0]);
    }
  }

  /**
   * A transform (its string result) or `isCountry` (its promise) in the
   * list makes the AND verdict `false`, whatever the value.
   */
  lemma NonBooleanFailsAnd(request: ValueRequest, j: nat)
    requires j < |request.operations| && request.getAndBooleanResult
    requires request.operations[j] in {"onlyNumbers", "onlyLetters", "onlySpecialCharacters", "trim", "excludeTheseCharacters", "isCountry"}
    requires EvaluateRequest(request).Success?
    ensures Summary(request, EvaluateRequest(request).value).andBooleanResult == Some(false)
  {
    EvaluateMeaning(CallerFor(request.value), request.operations);
    var results := EvaluateRequest(request).value;
    CallResultKinds(request.operations[j], request.value);
    assert !IsTrue(results[j]);
  }

  /**
   * The operation set given as an example beside `bulkOperation` names
   * `isNumber` and `isEmail`, which are not methods of the class: the call on
   * the first value throws and the batch produces nothing.
   */
  lemma DocumentedExampleAborts(operationSet: seq<ValueRequest>)
    requires operationSet == [
      ValueRequest("1234.021a", ["isNumber", "isAlphaNumeric"], true, false),
      ValueRequest("test1234@gmail.com", ["excludeTheseCharacters", "isEmail"], false, false)]
    ensures Batch(EvaluateRequest, operationSet) == Failure(NotAFunction("isNumber"))
  {
    var first := operationSet[0];
    assert first.operations[..0] == [];
    EvaluateStopsAt(CallerFor(first.value), first.operations, 0);
    assert operationSet[..0] == [];
    BatchStopsAt(EvaluateRequest, operationSet, 0);
  }
}

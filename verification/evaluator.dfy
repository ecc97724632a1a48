/** The evaluator `evl` and `evalSequence`.

    The host `evl` is a loop: some branches return, and others replace the expression
    (and, for `cond`, the environment variable) and go round again. A variable's value is
    itself fed back into the loop, so evaluation need not end; each round and each nested
    evaluation here costs one unit of `fuel`, and running out is the error `OutOfFuel`,
    which the host does not have.

    Assignment changes frames in place. The frames every evaluation sees are those of the
    one chain it was given, so the chain is threaded through as a value: each result
    carries the chain as it stands afterwards. */
module Evaluator {
  import opened Results
  import opened Values
  import opened Environment
  import opened Syntax

  /** `evl(exp, env)`, the branches in the source's order. No branch adds or removes a
      binding, so every chain it gives back has the frames and keys of the one it got. */
  function Evl(exp: Value, env: Env, fuel: nat): (r: Result<(Value, Env)>)
    ensures r.Ok? ==> SameShape(env, r.value.1)
    decreases fuel, 0
  {
    if fuel == 0 then Err(OutOfFuel)
    else if SelfEvaluatingP(exp) then Ok((exp, env))
    else if SymbolP(exp) then
      // variableP: go round again with the variable's value
      var v :- LookupVariableValue(exp.s, env);
      Evl(v, env, fuel - 1)
    else if TaggedListP(exp, "quote") then
      var x :- TextOfQuotation(exp);
      Ok((x, env))
    else if TaggedListP(exp, "set!") then EvalAssignment(exp, env, fuel - 1)
    else if TaggedListP(exp, "define") then EvalDefinition(exp, env, fuel - 1)
    else if TaggedListP(exp, "if") then
      var p :- IfPredicate(exp);
      var test :- Evl(p, env, fuel - 1);
      var next :- if TrueP(test.0) then IfConsequent(exp) else IfAlternative(exp);
      Evl(next, test.1, fuel - 1)
    else if TaggedListP(exp, "lambda") then
      // makeProcedure builds the procedure and returns nothing; the body is read after
      // the parameters, and that read cannot fail once they have been read
      var _ :- LambdaParameters(exp);
      var _ := LambdaBody(exp).value;
      Ok((Undefined, env))
    else if TaggedListP(exp, "begin") then
      // go round again with the last action, unevaluated by evalSequence
      var next :- EvalSequence(BeginActions(exp).value, env, fuel - 1);
      Evl(next.0, next.1, fuel - 1)
    else if TaggedListP(exp, "cond") then
      // the expansion is assigned to the environment variable, not to the expression,
      // so the loop meets the same `cond` again; that path reads no environment
      var _ :- CondToIf(exp);
      Evl(exp, env, fuel - 1)
    else if PairP(exp) then
      // the operator is evaluated; then listOfValues calls noOperandsP, which was
      // assigned from nullP before nullP had a value, and calling undefined fails
      var operator :- Operator(exp);
      var _ :- Evl(operator, env, fuel - 1);
      var _ := Operands(exp).value;
      Err(TypeError)
    else Err(UnknownExpressionType)
  }

  /** `evalAssignment`: the variable is read, then the value expression, which is then
      evaluated; the result is the symbol `ok`. */
  function EvalAssignment(exp: Value, env: Env, fuel: nat): (r: Result<(Value, Env)>)
    ensures r.Ok? ==> SameShape(env, r.value.1)
    decreases fuel, 1
  {
    var variable :- AssignmentVariable(exp);
    var valueExp :- AssignmentValue(exp);
    var value :- Evl(valueExp, env, fuel);
    var env' :- SetVariableValue(JsString(variable), value.0, value.1);
    Ok((Text("ok"), env'))
  }

  /** `evalDefinition`: the variable and the value are computed, the value evaluated,
      and then `definitionVariable` is applied to the variable instead of a binding
      being made. One of those steps always fails, so `define` never succeeds. */
  function EvalDefinition(exp: Value, env: Env, fuel: nat): (r: Result<(Value, Env)>)
    ensures r.Err?
    decreases fuel, 1
  {
    var variable :- DefinitionVariable(exp);
    var valueExp :- DefinitionValue(exp);
    var value :- Evl(valueExp, env, fuel);
    // the value expression is undefined whenever the second read would succeed
    DefinitionReadsFail(exp);
    match DefinitionVariable(variable)
    case Err(e) => Err(e)
    case Ok(_) => Ok((Text("ok"), value.1))
  }

  /** `evalSequence`: every expression but the last is evaluated, in order; the last is
      returned unevaluated, and nil for an empty sequence. */
  function EvalSequence(exps: Value, env: Env, fuel: nat): (r: Result<(Value, Env)>)
    ensures r.Ok? ==> SameShape(env, r.value.1)
    decreases fuel, 1 + WalkSize(exps)
  {
    if exps == NilV then Ok((NilV, env))
    else
      var last :- LastExpP(exps);
      if last then Ok((FirstExp(exps).value, env))
      else
        var done :- Evl(FirstExp(exps).value, env, fuel);
        EvalSequence(RestExp(exps).value, done.1, fuel)
  }
}

/** What the evaluator does with each kind of expression, stated on lists built from
    sequences, and how its answers depend on fuel. */
module EvaluatorLaws {
  import opened Results
  import opened Values
  import opened Environment
  import opened Syntax
  import opened Evaluator

  // Values that evaluate to themselves, quotation, variables

  /** Numbers and strings evaluate to themselves and leave the chain alone. */
  lemma EvalSelfEvaluating(x: Value, env: Env, fuel: nat)
    requires SelfEvaluatingP(x) && fuel > 0
    ensures Evl(x, env, fuel) == Ok((x, env))
  {
  }

  /** `false` and undefined are no kind of expression. */
  lemma EvalUnknown(x: Value, env: Env, fuel: nat)
    requires (x.False? || x.Undefined?) && fuel > 0
    ensures Evl(x, env, fuel) == Err(UnknownExpressionType)
  {
  }

  /** `(quote x)` gives `x` unevaluated. */
  lemma EvalQuote(x: Value, env: Env, fuel: nat)
    requires fuel > 0
    ensures Evl(ListOf([Text("quote"), x]), env, fuel) == Ok((x, env))
  {
    ListReads([Text("quote"), x]);
  }

  /** A symbol names the binding the chain makes visible, and that binding's value is
      evaluated in turn; a symbol no frame binds is an error naming it. */
  lemma EvalVariable(k: string, env: Env, fuel: nat)
    requires SymbolP(Text(k)) && fuel > 0
    ensures Evl(Text(k), env, fuel)
            == if k in Visible(env) then Evl(Visible(env)[k], env, fuel - 1)
               else Err(UnboundVariable(k))
  {
    LookupAgreesWithVisible(k, env);
  }

  /** A symbol bound to a number or a string evaluates to it. */
  lemma EvalVariableOfValue(k: string, env: Env, fuel: nat)
    requires SymbolP(Text(k)) && fuel > 1
    requires k in Visible(env) && SelfEvaluatingP(Visible(env)[k])
    ensures Evl(Text(k), env, fuel) == Ok((Visible(env)[k], env))
  {
    EvalVariable(k, env, fuel);
  }

  // if

  /** The alternative of an `if`: the one given, or the symbol `false`. */
  function Alternative(alternative: seq<Value>): Value
    requires |alternative| <= 1
  {
    if |alternative| == 1 then alternative[0] else Text("false")
  }

  /** `(if p c a)` evaluates `p`, then goes on with `c` for any value but the symbol
      `false` and with `a` for that symbol; without `a`, it goes on with the symbol
      `false` itself. */
  lemma EvalIf(p: Value, c: Value, alternative: seq<Value>, env: Env, fuel: nat)
    requires |alternative| <= 1 && fuel > 0
    ensures Evl(ListOf([Text("if"), p, c] + alternative), env, fuel)
            == match Evl(p, env, fuel - 1)
               case Err(e) => Err(e)
               case Ok(test) =>
                 Evl(if TrueP(test.0) then c else Alternative(alternative), test.1, fuel - 1)
  {
    IfParts(p, c, alternative);
    ListReads([Text("if"), p, c] + alternative);
  }

  /** The default alternative is evaluated as a variable: `(if 'false 1)` looks the
      symbol `false` up, and fails where nothing binds it. */
  lemma EvalIfDefaultAlternative(env: Env, fuel: nat)
    requires fuel > 2 && "false" !in Visible(env)
    ensures Evl(ListOf([Text("if"), ListOf([Text("quote"), Text("false")]), Num(1)]), env, fuel)
            == Err(UnboundVariable("false"))
  {
    var test := ListOf([Text("quote"), Text("false")]);
    EvalIf(test, Num(1), [], env, fuel);
    assert [Text("if"), test, Num(1)] + [] == [Text("if"), test, Num(1)];
    EvalQuote(Text("false"), env, fuel - 1);
    EvalVariable("false", env, fuel - 1);
  }

  // begin and evalSequence

  /** Reference for a sequence's effects: each expression evaluated in order, each in the
      chain the one before left. */
  function RunAll(es: seq<Value>, env: Env, fuel: nat): Result<Env>
    decreases |es|
  {
    if |es| == 0 then Ok(env)
    else
      match Evl(es[0], env, fuel)
      case Err(e) => Err(e)
      case Ok(done) => RunAll(es[1..], done.1, fuel)
  }

  /** `evalSequence` of a proper list runs every expression but the last for its effects
      and returns the last one unevaluated; the empty sequence gives nil. */
  lemma {:induction false} EvalSequenceOfList(es: seq<Value>, env: Env, fuel: nat)
    ensures EvalSequence(ListOf(es), env, fuel)
            == if |es| == 0 then Ok((NilV, env))
               else match RunAll(es[..|es| - 1], env, fuel)
                    case Err(e) => Err(e)
                    case Ok(env') => Ok((es[|es| - 1], env'))
    decreases |es|
  {
    if |es| > 0 {
      var rest := es[1..];
      assert ListOf(es) == Pair(es[0], ListOf(rest));
      if |es| == 1 {
        assert ListOf(rest) == NilV;
        assert es[..0] == [];
      } else {
        assert ListOf(rest).Pair?;
        var front := es[..|es| - 1];
        assert front[0] == es[0];
        assert front[1..] == rest[..|rest| - 1];
        assert rest[|rest| - 1] == es[|es| - 1];
        match Evl(es[0], env, fuel) {
          case Err(e) =>
          case Ok(done) =>
            EvalSequenceOfList(rest, done.1, fuel);
        }
      }
    }
  }

  /** `(begin e1 ... en)` runs `e1` to `e(n-1)` for their effects and then evaluates `en`
      in the chain they leave; `(begin)` goes on with nil. */
  lemma EvalBegin(es: seq<Value>, env: Env, fuel: nat)
    requires fuel > 0
    ensures Evl(ListOf([Text("begin")] + es), env, fuel)
            == if |es| == 0 then Evl(NilV, env, fuel - 1)
               else match RunAll(es[..|es| - 1], env, fuel - 1)
                    case Err(e) => Err(e)
                    case Ok(env') => Evl(es[|es| - 1], env', fuel - 1)
  {
    var xs := [Text("begin")] + es;
    assert xs[1..] == es;
    assert ListOf(xs) == Pair(Text("begin"), ListOf(es));
    EvalSequenceOfList(es, env, fuel - 1);
  }

  // set!

  /** `(set! k e)` evaluates `e` and rebinds `k` where it is bound, giving the symbol `ok`;
      an unbound `k` is an error naming it. */
  lemma EvalAssignmentOfList(k: string, e: Value, env: Env, fuel: nat)
    requires fuel > 0
    ensures Evl(ListOf([Text("set!"), Text(k), e]), env, fuel)
            == match Evl(e, env, fuel - 1)
               case Err(err) => Err(err)
               case Ok(done) =>
                 match SetVariableValue(k, done.0, done.1)
                 case Err(err) => Err(err)
                 case Ok(env') => Ok((Text("ok"), env'))
  {
    ListReads([Text("set!"), Text(k), e]);
  }

  /** After `(set! k e)` succeeds, `k` reads as the value of `e` and every other name
      reads as it did once `e` had been evaluated. */
  lemma EvalAssignmentThenLookup(k: string, e: Value, env: Env, fuel: nat, other: string)
    requires fuel > 0 && Evl(ListOf([Text("set!"), Text(k), e]), env, fuel).Ok?
    ensures var done := Evl(e, env, fuel - 1);
            var after := Evl(ListOf([Text("set!"), Text(k), e]), env, fuel).value.1;
            done.Ok?
            && LookupVariableValue(k, after) == Ok(done.value.0)
            && (other != k ==> LookupVariableValue(other, after) == LookupVariableValue(other, done.value.1))
  {
    EvalAssignmentOfList(k, e, env, fuel);
    var done := Evl(e, env, fuel - 1).value;
    SetUpdatesVisible(k, done.0, done.1, other);
  }

  // The branches that never succeed

  /** `define` makes no binding and always fails: with a symbol after `define` the
      closing `definitionVariable` read fails, and otherwise the value it evaluates is
      the undefined result of `makeLambda`. */
  lemma EvalDefineFails(exp: Value, env: Env, fuel: nat)
    requires TaggedListP(exp, "define")
    ensures Evl(exp, env, fuel).Err?
  {
    if fuel > 0 {
      match DefinitionVariable(exp) {
        case Err(_) =>
        case Ok(variable) =>
          match DefinitionValue(exp) {
            case Err(_) =>
            case Ok(valueExp) =>
              DefinitionReadsFail(exp);
              if valueExp == Undefined {
                assert Evl(valueExp, env, fuel - 1).Err?;
              }
          }
      }
    }
  }

  /** `cond` never succeeds: its expansion goes to the environment variable, so the loop
      meets the same `cond` until the expansion fails or the fuel runs out. */
  lemma {:induction false} EvalCondFails(exp: Value, env: Env, fuel: nat)
    requires TaggedListP(exp, "cond")
    ensures Evl(exp, env, fuel).Err?
    decreases fuel
  {
    if fuel > 0 {
      if CondToIf(exp).Ok? {
        EvalCondFails(exp, env, fuel - 1);
      }
    }
  }

  /** The symbols that head a special form. */
  predicate SpecialFormHead(x: Value)
  {
    x == Text("quote") || x == Text("set!") || x == Text("define") || x == Text("if")
    || x == Text("lambda") || x == Text("begin") || x == Text("cond")
  }

  /** An application never succeeds: after its operator, the operands are evaluated by
      calling `noOperandsP`, which is undefined. */
  lemma EvalApplicationFails(exp: Value, env: Env, fuel: nat)
    requires exp.Pair? && !SpecialFormHead(exp.car)
    ensures Evl(exp, env, fuel).Err?
  {
  }

  /** So only numbers, strings, symbols and the forms `quote`, `set!`, `if`, `lambda` and
      `begin` can evaluate without an error. */
  lemma EvalSucceedsOnlyOn(exp: Value, env: Env, fuel: nat)
    requires Evl(exp, env, fuel).Ok?
    ensures SelfEvaluatingP(exp) || SymbolP(exp)
            || (exp.Pair? && (exp.car == Text("quote") || exp.car == Text("set!") || exp.car == Text("if")
                              || exp.car == Text("lambda") || exp.car == Text("begin")))
  {
    if exp.Pair? {
      if exp.car == Text("define") {
        EvalDefineFails(exp, env, fuel);
      } else if exp.car == Text("cond") {
        EvalCondFails(exp, env, fuel);
      } else if !SpecialFormHead(exp.car) {
        EvalApplicationFails(exp, env, fuel);
      }
    }
  }

  /** `lambda` makes no procedure: its value is undefined once its parameters are read. */
  lemma EvalLambda(params: Value, body: Value, env: Env, fuel: nat)
    requires fuel > 0
    ensures Evl(Pair(Text("lambda"), Pair(params, body)), env, fuel) == Ok((Undefined, env))
  {
  }

  // Fuel

  /** More fuel changes nothing once an evaluation has ended without running out. */
  lemma {:induction false} EvlMoreFuel(exp: Value, env: Env, f: nat, g: nat)
    requires f <= g && Evl(exp, env, f) != Err(OutOfFuel)
    ensures Evl(exp, env, g) == Evl(exp, env, f)
    decreases f, 1
  {
    if SelfEvaluatingP(exp) || TaggedListP(exp, "quote") || TaggedListP(exp, "lambda")
       || exp.False? || exp.Undefined? {
      DirectMoreFuel(exp, env, f, g);
    } else if SymbolP(exp) {
      VariableMoreFuel(exp, env, f, g);
    } else if TaggedListP(exp, "set!") {
      AssignmentMoreFuel(exp, env, f, g);
    } else if TaggedListP(exp, "define") {
      DefinitionMoreFuel(exp, env, f, g);
    } else if TaggedListP(exp, "if") {
      IfMoreFuel(exp, env, f, g);
    } else if TaggedListP(exp, "begin") {
      BeginMoreFuel(exp, env, f, g);
    } else if TaggedListP(exp, "cond") {
      CondMoreFuel(exp, env, f, g);
    } else if PairP(exp) {
      ApplicationMoreFuel(exp, env, f, g);
    }
  }

  /** The branches that make no nested call to `evl` of their own. */
  lemma DirectMoreFuel(exp: Value, env: Env, f: nat, g: nat)
    requires f <= g && Evl(exp, env, f) != Err(OutOfFuel)
    requires SelfEvaluatingP(exp) || TaggedListP(exp, "quote") || TaggedListP(exp, "lambda")
             || exp.False? || exp.Undefined?
    ensures Evl(exp, env, g) == Evl(exp, env, f)
  {
  }

  lemma {:induction false} AssignmentMoreFuel(exp: Value, env: Env, f: nat, g: nat)
    requires f <= g && TaggedListP(exp, "set!") && Evl(exp, env, f) != Err(OutOfFuel)
    ensures Evl(exp, env, g) == Evl(exp, env, f)
    decreases f, 0
  {
    EvalAssignmentMoreFuel(exp, env, f - 1, g - 1);
  }

  lemma {:induction false} DefinitionMoreFuel(exp: Value, env: Env, f: nat, g: nat)
    requires f <= g && TaggedListP(exp, "define") && Evl(exp, env, f) != Err(OutOfFuel)
    ensures Evl(exp, env, g) == Evl(exp, env, f)
    decreases f, 0
  {
    EvalDefinitionMoreFuel(exp, env, f - 1, g - 1);
  }

  lemma {:induction false} CondMoreFuel(exp: Value, env: Env, f: nat, g: nat)
    requires f <= g && TaggedListP(exp, "cond") && Evl(exp, env, f) != Err(OutOfFuel)
    ensures Evl(exp, env, g) == Evl(exp, env, f)
    decreases f, 0
  {
    if CondToIf(exp).Ok? {
      EvlMoreFuel(exp, env, f - 1, g - 1);
    }
  }

  lemma {:induction false} ApplicationMoreFuel(exp: Value, env: Env, f: nat, g: nat)
    requires f <= g && exp.Pair? && !SpecialFormHead(exp.car) && Evl(exp, env, f) != Err(OutOfFuel)
    ensures Evl(exp, env, g) == Evl(exp, env, f)
    decreases f, 0
  {
    EvlMoreFuel(exp.car, env, f - 1, g - 1);
  }

  lemma {:induction false} VariableMoreFuel(exp: Value, env: Env, f: nat, g: nat)
    requires f <= g && SymbolP(exp) && Evl(exp, env, f) != Err(OutOfFuel)
    ensures Evl(exp, env, g) == Evl(exp, env, f)
    decreases f, 0
  {
    match LookupVariableValue(exp.s, env) {
      case Err(_) =>
      case Ok(v) => EvlMoreFuel(v, env, f - 1, g - 1);
    }
  }

  lemma {:induction false} IfMoreFuel(exp: Value, env: Env, f: nat, g: nat)
    requires f <= g && TaggedListP(exp, "if") && Evl(exp, env, f) != Err(OutOfFuel)
    ensures Evl(exp, env, g) == Evl(exp, env, f)
    decreases f, 0
  {
    match IfPredicate(exp) {
      case Err(_) =>
      case Ok(p) =>
        EvlMoreFuel(p, env, f - 1, g - 1);
        match Evl(p, env, f - 1) {
          case Err(_) =>
          case Ok(test) =>
            match (if TrueP(test.0) then IfConsequent(exp) else IfAlternative(exp)) {
              case Err(_) =>
              case Ok(next) => EvlMoreFuel(next, test.1, f - 1, g - 1);
            }
        }
    }
  }

  lemma {:induction false} BeginMoreFuel(exp: Value, env: Env, f: nat, g: nat)
    requires f <= g && TaggedListP(exp, "begin") && Evl(exp, env, f) != Err(OutOfFuel)
    ensures Evl(exp, env, g) == Evl(exp, env, f)
    decreases f, 0
  {
    EvalSequenceMoreFuel(exp.cdr, env, f - 1, g - 1);
    match EvalSequence(exp.cdr, env, f - 1) {
      case Err(_) =>
      case Ok(next) => EvlMoreFuel(next.0, next.1, f - 1, g - 1);
    }
  }

  lemma {:induction false} EvalAssignmentMoreFuel(exp: Value, env: Env, f: nat, g: nat)
    requires f <= g && EvalAssignment(exp, env, f) != Err(OutOfFuel)
    ensures EvalAssignment(exp, env, g) == EvalAssignment(exp, env, f)
    decreases f, 2
  {
    match AssignmentVariable(exp) {
      case Err(_) =>
      case Ok(_) =>
        match AssignmentValue(exp) {
          case Err(_) =>
          case Ok(valueExp) => EvlMoreFuel(valueExp, env, f, g);
        }
    }
  }

  lemma {:induction false} EvalDefinitionMoreFuel(exp: Value, env: Env, f: nat, g: nat)
    requires f <= g && EvalDefinition(exp, env, f) != Err(OutOfFuel)
    ensures EvalDefinition(exp, env, g) == EvalDefinition(exp, env, f)
    decreases f, 2
  {
    match DefinitionVariable(exp) {
      case Err(_) =>
      case Ok(_) =>
        match DefinitionValue(exp) {
          case Err(_) =>
          case Ok(valueExp) => EvlMoreFuel(valueExp, env, f, g);
        }
    }
  }

  lemma {:induction false} EvalSequenceMoreFuel(exps: Value, env: Env, f: nat, g: nat)
    requires f <= g && EvalSequence(exps, env, f) != Err(OutOfFuel)
    ensures EvalSequence(exps, env, g) == EvalSequence(exps, env, f)
    decreases f, 2 + WalkSize(exps)
  {
    if exps != NilV {
      match LastExpP(exps) {
        case Err(_) =>
        case Ok(last) =>
          if !last {
            var first := FirstExp(exps).value;
            EvlMoreFuel(first, env, f, g);
            match Evl(first, env, f) {
              case Err(_) =>
              case Ok(done) => EvalSequenceMoreFuel(RestExp(exps).value, done.1, f, g);
            }
          }
      }
    }
  }
}

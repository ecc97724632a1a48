/** The expression selectors and the `cond` expansion.

    Every selector is a chain of `car` and `cdr` reads, so each one fails exactly where
    the host's property read fails: on undefined. The constructors `makeIf`, `makeBegin`
    and `makeLambda` build their pair and then fall off their end without a `return`, so
    the value they give is undefined. */
module Syntax {
  import opened Results
  import opened Values

  function Cadr(x: Value): Result<Value>
  {
    var d :- Cdr(x);
    Car(d)
  }

  function Cddr(x: Value): Result<Value>
  {
    var d :- Cdr(x);
    Cdr(d)
  }

  function Caddr(x: Value): Result<Value>
  {
    var d :- Cddr(x);
    Car(d)
  }

  function Cdddr(x: Value): Result<Value>
  {
    var d :- Cddr(x);
    Cdr(d)
  }

  /** The reads of a proper list's first elements and of the rest after them. */
  lemma ListReads(xs: seq<Value>)
    ensures |xs| >= 1 ==> Car(ListOf(xs)) == Ok(xs[0]) && Cdr(ListOf(xs)) == Ok(ListOf(xs[1..]))
    ensures |xs| >= 2 ==> Cadr(ListOf(xs)) == Ok(xs[1]) && Cddr(ListOf(xs)) == Ok(ListOf(xs[2..]))
    ensures |xs| >= 3 ==> Caddr(ListOf(xs)) == Ok(xs[2]) && Cdddr(ListOf(xs)) == Ok(ListOf(xs[3..]))
  {
    if |xs| >= 2 {
      assert xs[1..][1..] == xs[2..];
      assert xs[1..][0] == xs[1];
    }
    if |xs| >= 3 {
      assert xs[2..][1..] == xs[3..];
      assert xs[2..][0] == xs[2];
    }
  }

  // Selectors, named as in the source

  function TextOfQuotation(exp: Value): Result<Value> { Cadr(exp) }
  function AssignmentVariable(exp: Value): Result<Value> { Cadr(exp) }
  function AssignmentValue(exp: Value): Result<Value> { Caddr(exp) }
  function IfPredicate(exp: Value): Result<Value> { Cadr(exp) }
  function IfConsequent(exp: Value): Result<Value> { Caddr(exp) }
  function LambdaParameters(exp: Value): Result<Value> { Cadr(exp) }
  function LambdaBody(exp: Value): Result<Value> { Cddr(exp) }
  function BeginActions(exp: Value): Result<Value> { Cdr(exp) }
  function Operator(exp: Value): Result<Value> { Car(exp) }
  function Operands(exp: Value): Result<Value> { Cdr(exp) }
  function FirstExp(exps: Value): Result<Value> { Car(exps) }
  function RestExp(exps: Value): Result<Value> { Cdr(exps) }

  /** `ifAlternative`: the fourth element, or the symbol `false` when the list has none. */
  function IfAlternative(exp: Value): (r: Result<Value>)
  {
    var d :- Cdddr(exp);
    if !NullP(d) then Car(d) else Ok(Text("false"))
  }

  /** The selectors of `(if p c a)` and `(if p c)`: the alternative defaults to the
      symbol `false`. */
  lemma IfParts(p: Value, c: Value, alternative: seq<Value>)
    requires |alternative| <= 1
    ensures var exp := ListOf([Text("if"), p, c] + alternative);
            IfPredicate(exp) == Ok(p) && IfConsequent(exp) == Ok(c)
            && IfAlternative(exp) == Ok(if |alternative| == 1 then alternative[0] else Text("false"))
  {
    var xs := [Text("if"), p, c] + alternative;
    ListReads(xs);
    assert xs[3..] == alternative;
    if |alternative| == 1 {
      ListReads(alternative);
    }
  }

  /** `lastExpP`: whether the cdr is nil. */
  function LastExpP(exps: Value): (r: Result<bool>)
    ensures r.Err? <==> exps.Undefined?
    ensures r == Ok(true) <==> exps.Pair? && exps.cdr == NilV
  {
    var d :- Cdr(exps);
    Ok(NullP(d))
  }

  /** `sequenceToExp`: nil for nil, the only expression of a one-element sequence, and
      otherwise the undefined result of `makeBegin`. */
  function SequenceToExp(exps: Value): (r: Result<Value>)
    ensures r.Err? <==> exps.Undefined?
    ensures r.Err? ==> r.error == TypeError
  {
    if NullP(exps) then Ok(NilV)
    else
      var last :- LastExpP(exps);
      if last then FirstExp(exps) else Ok(Undefined)
  }

  lemma SequenceToExpOfList(xs: seq<Value>)
    ensures SequenceToExp(ListOf(xs))
            == if |xs| == 0 then Ok(NilV) else if |xs| == 1 then Ok(xs[0]) else Ok(Undefined)
  {
    ListReads(xs);
    if |xs| >= 2 {
      assert ListOf(xs[1..]).Pair?;
    }
  }

  // cond

  function CondPredicate(clause: Value): Result<Value> { Car(clause) }
  function CondActions(clause: Value): Result<Value> { Cdr(clause) }

  /** `condElseClause`: whether the clause's predicate is the symbol `else`. */
  function CondElseClause(clause: Value): Result<bool>
  {
    var p :- CondPredicate(clause);
    Ok(p == Text("else"))
  }

  /** `expandClauses`: the host `false` for no clauses; for a last `else` clause, its
      actions as one expression; an `else` clause before the last is an error. Every
      other clause list yields the undefined result of `makeIf`, once its parts have been
      read and the rest of the clauses expanded. */
  function ExpandClauses(clauses: Value): (r: Result<Value>)
    decreases WalkSize(clauses)
  {
    if NullP(clauses) then Ok(False)
    else
      var first :- Car(clauses);
      var rest := Cdr(clauses).value;
      var isElse :- CondElseClause(first);
      if isElse then
        if NullP(rest) then SequenceToExp(CondActions(first).value)
        else Err(ElseNotLast)
      else
        // The predicate was read above; reading the actions of a clause that has one
        // cannot fail.
        var _ :- SequenceToExp(CondActions(first).value);
        var _ :- ExpandClauses(rest);
        Ok(Undefined)
  }

  /** A clause the expansion reads without a host error: a pair whose actions are there. */
  predicate WellFormedClause(c: Value)
  {
    c.Pair? && !c.cdr.Undefined?
  }

  predicate IsElseClause(c: Value)
  {
    c.Pair? && c.car == Text("else")
  }

  /** What `expandClauses` gives for a proper list of well-formed clauses. */
  function ExpansionOf(cs: seq<Value>): Result<Value>
    requires forall i :: 0 <= i < |cs| ==> WellFormedClause(cs[i])
  {
    if |cs| == 0 then Ok(False)
    else if exists i :: 0 <= i < |cs| - 1 && IsElseClause(cs[i]) then Err(ElseNotLast)
    else if |cs| == 1 && IsElseClause(cs[0]) then SequenceToExp(cs[0].cdr)
    else Ok(Undefined)
  }

  /** The expansion of a clause list follows the rule above: `else` may only come last,
      and only a lone `else` clause gives its actions back. */
  lemma {:induction false} ExpandClausesOfList(cs: seq<Value>)
    requires forall i :: 0 <= i < |cs| ==> WellFormedClause(cs[i])
    ensures ExpandClauses(ListOf(cs)) == ExpansionOf(cs)
    decreases |cs|
  {
    if |cs| > 0 {
      var c, rest := cs[0], cs[1..];
      assert ListOf(cs) == Pair(c, ListOf(rest));
      ExpandClausesOfList(rest);
      if !IsElseClause(c) {
        if exists i :: 0 <= i < |cs| - 1 && IsElseClause(cs[i]) {
          var i :| 0 <= i < |cs| - 1 && IsElseClause(cs[i]);
          assert IsElseClause(rest[i - 1]);
        }
        if exists i :: 0 <= i < |rest| - 1 && IsElseClause(rest[i]) {
          var i :| 0 <= i < |rest| - 1 && IsElseClause(rest[i]);
          assert IsElseClause(cs[i + 1]);
        }
        if |rest| == 0 {
          assert ListOf(rest) == NilV;
        }
      } else if |rest| > 0 {
        assert ListOf(rest).Pair?;
      }
    }
  }

  /** A lone `else` clause with one action expands to that action, unchanged. */
  lemma ElseClauseAlone(action: Value)
    ensures ExpandClauses(ListOf([ListOf([Text("else"), action])])) == Ok(action)
  {
    var clause := ListOf([Text("else"), action]);
    ListReads([Text("else"), action]);
    assert [Text("else"), action][1..] == [action];
    SequenceToExpOfList([action]);
    ExpandClausesOfList([clause]);
  }

  /** `condToIf`: the expansion of the clauses after the `cond` symbol. */
  function CondToIf(exp: Value): Result<Value>
  {
    var clauses :- Cdr(exp);
    ExpandClauses(clauses)
  }

  // define

  /** `definitionVariable`: the symbol after `define`, or the first element of the list
      there. */
  function DefinitionVariable(exp: Value): Result<Value>
  {
    var x :- Cadr(exp);
    if SymbolP(x) then Ok(x) else Car(x)
  }

  /** `definitionValue`: the third element when the second is a symbol; otherwise the
      undefined result of `makeLambda`, once its arguments have been read. */
  function DefinitionValue(exp: Value): Result<Value>
  {
    var x :- Cadr(exp);
    if SymbolP(x) then Caddr(exp)
    else
      // The second argument of `makeLambda`, `cdr(cdr(exp))`, cannot fail once
      // `car(cdr(exp))` has been read.
      var _ :- Cdr(x);
      Ok(Undefined)
  }

  /** `definitionVariable` applied, as `evalDefinition` applies it, to its own result:
      that read fails on a symbol, and every successful first read that is not a symbol
      comes with a value that is undefined. */
  lemma DefinitionReadsFail(exp: Value)
    requires DefinitionVariable(exp).Ok? && DefinitionValue(exp).Ok?
    ensures DefinitionVariable(DefinitionVariable(exp).value).Err?
            || DefinitionValue(exp) == Ok(Undefined)
  {
  }
}

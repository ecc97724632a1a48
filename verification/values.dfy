/** The interpreter's runtime values, the host's property reads on them, the type
    predicates, and the list helpers `length` and `listToArray`.

    The interpreter has no separate string or symbol type: both are host strings, and a
    leading `$` marks a string. The empty list is the host string "nil", so the symbol
    `nil` and the empty list are one value. */
module Values {
  import opened Results
  import Numerals

  datatype Value =
    | Num(n: int)                 // a number (integer payload)
    | Text(s: string)             // a host string: "$..." is a string, anything else a symbol
    | Pair(car: Value, cdr: Value)
    | False                       // the host boolean false
    | Undefined                   // the host undefined

  /** The empty-list sentinel. */
  const NilV: Value := Text("nil")

  predicate IsStringValue(v: Value)
  {
    v.Text? && |v.s| > 0 && v.s[0] == '$'
  }

  /** The host's conversion of a value to text, used for property keys and messages. */
  function JsString(v: Value): string
  {
    match v
    case Num(n) => Numerals.IntToString(n)
    case Text(s) => s
    case Pair(_, _) => "[object Object]"
    case False => "false"
    case Undefined => "undefined"
  }

  /** `x.car`: the field of a pair, undefined on any other primitive, a TypeError on undefined. */
  function Car(x: Value): (r: Result<Value>)
    ensures r.Err? <==> x.Undefined?
    ensures r.Ok? ==> r.value == (if x.Pair? then x.car else Undefined)
  {
    match x
    case Pair(a, _) => Ok(a)
    case Undefined => Err(TypeError)
    case _ => Ok(Undefined)
  }

  /** `x.cdr`, read the same way. */
  function Cdr(x: Value): (r: Result<Value>)
    ensures r.Err? <==> x.Undefined?
    ensures r.Ok? ==> r.value == (if x.Pair? then x.cdr else Undefined)
  {
    match x
    case Pair(_, d) => Ok(d)
    case Undefined => Err(TypeError)
    case _ => Ok(Undefined)
  }

  predicate PairP(x: Value)
  {
    x.Pair?
  }

  predicate NullP(x: Value)
  {
    x == NilV
  }

  predicate ListP(x: Value)
  {
    NullP(x) || PairP(x)
  }

  predicate SymbolP(x: Value)
  {
    x.Text? && !IsStringValue(x)
  }

  predicate SelfEvaluatingP(x: Value)
  {
    x.Num? || IsStringValue(x)
  }

  /** A list whose first element is the symbol `tag`. */
  predicate TaggedListP(x: Value, tag: string)
  {
    ListP(x) && Car(x) == Ok(Text(tag))
  }

  /** Only the symbol `false` is false; every other value, the host `false` included, is true. */
  predicate FalseP(x: Value)
  {
    x == Text("false")
  }

  predicate TrueP(x: Value)
  {
    !FalseP(x)
  }

  /** The evaluator's type tests split the values: every value is self-evaluating, a
      symbol, a pair, the host `false` or undefined, and only one of the first two; a
      tagged list is a pair headed by its tag; and nil is both a symbol and a list. */
  lemma ValueKinds(x: Value, tag: string)
    ensures SelfEvaluatingP(x) || SymbolP(x) || PairP(x) || x.False? || x.Undefined?
    ensures !(SelfEvaluatingP(x) && SymbolP(x))
    ensures TaggedListP(x, tag) <==> x.Pair? && x.car == Text(tag)
    ensures SymbolP(NilV) && ListP(NilV) && !PairP(NilV)
  {
  }

  // Reference view of a cons chain: its elements and the value its last cdr holds.

  /** The cars met walking down the cdr chain. */
  function Elements(v: Value): seq<Value>
  {
    if v.Pair? then [v.car] + Elements(v.cdr) else []
  }

  /** The first non-pair value on the cdr chain: `NilV` for a proper list. */
  function Terminal(v: Value): Value
  {
    if v.Pair? then Terminal(v.cdr) else v
  }

  predicate IsList(v: Value)
  {
    Terminal(v) == NilV
  }

  /** The chain holding `xs` in order and ending in `tail`. */
  function Chain(xs: seq<Value>, tail: Value): Value
  {
    if |xs| == 0 then tail else Pair(xs[0], Chain(xs[1..], tail))
  }

  function ListOf(xs: seq<Value>): Value
  {
    Chain(xs, NilV)
  }

  lemma {:induction false} ChainParts(xs: seq<Value>, tail: Value)
    requires !tail.Pair?
    ensures Elements(Chain(xs, tail)) == xs
    ensures Terminal(Chain(xs, tail)) == tail
    decreases |xs|
  {
    if |xs| > 0 {
      ChainParts(xs[1..], tail);
    }
  }

  /** Measure of the walk `while (xs !== nil) xs = xs.cdr`: a step from a non-pair other
      than undefined lands on undefined, whose next step fails. */
  function WalkSize(v: Value): nat
  {
    match v
    case Pair(_, d) => 1 + WalkSize(d)
    case Undefined => 0
    case _ => 1
  }

  /** The loop of `length`, continued from count `i`. It stops exactly at nil and fails
      on any other end of the chain. */
  function LengthFrom(xs: Value, i: nat): (r: Result<nat>)
    ensures r == if IsList(xs) then Ok(i + |Elements(xs)|) else Err(TypeError)
    decreases WalkSize(xs)
  {
    if xs == NilV then Ok(i)
    else
      match Cdr(xs)
      case Err(e) => Err(e)
      case Ok(next) => LengthFrom(next, i + 1)
  }

  function Length(xs: Value): (r: Result<nat>)
    ensures r == if IsList(xs) then Ok(|Elements(xs)|) else Err(TypeError)
  {
    LengthFrom(xs, 0)
  }

  /** The loop of `listToArray`, continued after the elements `acc` already pushed. */
  function ListToArrayFrom(xs: Value, acc: seq<Value>): (r: Result<seq<Value>>)
    ensures r == if IsList(xs) then Ok(acc + Elements(xs)) else Err(TypeError)
    decreases WalkSize(xs)
  {
    if xs == NilV then
      assert acc + Elements(xs) == acc;
      Ok(acc)
    else
      match Car(xs)
      case Err(e) => Err(e)
      case Ok(a) =>
        match Cdr(xs)
        case Err(e) => Err(e)
        case Ok(next) =>
          var r := ListToArrayFrom(next, acc + [a]);
          assert xs.Pair? ==> acc + [a] + Elements(next) == acc + Elements(xs);
          r
  }

  function ListToArray(xs: Value): (r: Result<seq<Value>>)
    ensures r == if IsList(xs) then Ok(Elements(xs)) else Err(TypeError)
  {
    var r := ListToArrayFrom(xs, []);
    assert [] + Elements(xs) == Elements(xs);
    r
  }

  /** `length` and `listToArray` succeed on the same inputs, and the count `length`
      returns is the number of elements `listToArray` returns. */
  lemma LengthAgreesWithListToArray(xs: Value)
    ensures Length(xs).Ok? <==> ListToArray(xs).Ok?
    ensures Length(xs).Ok? ==> Length(xs).value == |ListToArray(xs).value|
  {
  }

  /** The elements of a proper list built from `xs` are `xs`. */
  lemma ListOfRoundTrip(xs: seq<Value>)
    ensures IsList(ListOf(xs)) && ListToArray(ListOf(xs)) == Ok(xs)
  {
    ChainParts(xs, NilV);
  }
}

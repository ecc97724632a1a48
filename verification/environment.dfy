/** The frame chain of the evaluator: `findVariableValue`, `lookupVariableValue`,
    `setVariableValue`, and the arity check of `extendEnvironment`.

    The host keeps each frame as an object whose own properties are its bindings and whose
    `_parent` property leads to the enclosing frame, `null` after the global one. Here the
    chain is a sequence of maps, innermost frame first. Keys are the host's text of the
    key value, as property names are. */
module Environment {
  import opened Results
  import opened Values

  type Frame = map<string, Value>

  type Env = seq<Frame>

  /** Two chains with the same frames owning the same keys; only bound values differ. */
  predicate SameShape(env: Env, env': Env)
  {
    |env'| == |env| && forall j :: 0 <= j < |env| ==> env'[j].Keys == env[j].Keys
  }

  /** The walk of `findVariableValue` from frame `i` on: the first frame that owns `key`. */
  function FindFrom(key: string, env: Env, i: nat): (r: Option<nat>)
    requires i <= |env|
    ensures r.Some? ==> i <= r.value < |env| && key in env[r.value]
                        && forall j :: i <= j < r.value ==> key !in env[j]
    ensures r.None? ==> forall j :: i <= j < |env| ==> key !in env[j]
    decreases |env| - i
  {
    if i == |env| then None
    else if key in env[i] then Some(i)
    else FindFrom(key, env, i + 1)
  }

  /** The nearest frame of the chain that owns `key`, or `None` (the source's null). */
  function FindVariableValue(key: string, env: Env): (r: Option<nat>)
    ensures r.Some? ==> r.value < |env| && key in env[r.value]
                        && forall j :: 0 <= j < r.value ==> key !in env[j]
    ensures r.None? ==> forall j :: 0 <= j < |env| ==> key !in env[j]
  {
    FindFrom(key, env, 0)
  }

  /** The binding of `key` in its nearest frame; unbound is an error naming the key. */
  function LookupVariableValue(key: string, env: Env): (r: Result<Value>)
    ensures r.Err? <==> forall j :: 0 <= j < |env| ==> key !in env[j]
    ensures r.Err? ==> r.error == UnboundVariable(key)
  {
    match FindVariableValue(key, env)
    case None => Err(UnboundVariable(key))
    case Some(i) => Ok(env[i][key])
  }

  /** Rebinding `key` in its nearest frame; unbound is an error naming the key. The host
      also returns the value it stored, which its one caller ignores. */
  function SetVariableValue(key: string, value: Value, env: Env): (r: Result<Env>)
    ensures r.Err? <==> forall j :: 0 <= j < |env| ==> key !in env[j]
    ensures r.Err? ==> r.error == UnboundVariable(key)
    ensures r.Ok? ==> SameShape(env, r.value) && LookupVariableValue(key, r.value) == Ok(value)
  {
    match FindVariableValue(key, env)
    case None => Err(UnboundVariable(key))
    case Some(i) =>
      var env' := env[i := env[i][key := value]];
      assert FindVariableValue(key, env') == Some(i) by {
        FindAfterSet(key, value, env, i);
      }
      Ok(env')
  }

  lemma FindAfterSet(key: string, value: Value, env: Env, i: nat)
    requires FindVariableValue(key, env) == Some(i)
    ensures FindVariableValue(key, env[i := env[i][key := value]]) == Some(i)
  {
    var env' := env[i := env[i][key := value]];
    assert key in env'[i];
    assert forall j :: 0 <= j < i ==> env'[j] == env[j];
  }

  // A reference view of the chain

  /** Every binding the chain makes visible: an inner frame hides the outer ones. */
  function Visible(env: Env): map<string, Value>
  {
    if |env| == 0 then map[] else Visible(env[1..]) + env[0]
  }

  lemma {:induction false} VisibleKeys(key: string, env: Env)
    ensures key in Visible(env) <==> exists j :: 0 <= j < |env| && key in env[j]
    decreases |env|
  {
    if |env| > 0 {
      VisibleKeys(key, env[1..]);
      if key in Visible(env[1..]) {
        var j :| 0 <= j < |env[1..]| && key in env[1..][j];
        assert key in env[j + 1];
      }
      if exists j :: 0 <= j < |env| && key in env[j] {
        var j :| 0 <= j < |env| && key in env[j];
        if j > 0 {
          assert key in env[1..][j - 1];
        }
      }
    }
  }

  /** Looking up reads the visible binding: `key` is bound exactly when it is visible,
      and its value is the one the innermost owning frame holds. */
  lemma {:induction false} LookupAgreesWithVisible(key: string, env: Env)
    ensures LookupVariableValue(key, env)
            == if key in Visible(env) then Ok(Visible(env)[key]) else Err(UnboundVariable(key))
    decreases |env|
  {
    VisibleKeys(key, env);
    if |env| > 0 {
      LookupAgreesWithVisible(key, env[1..]);
      if key !in env[0] {
        var r := FindVariableValue(key, env);
        var r' := FindVariableValue(key, env[1..]);
        if r.Some? {
          assert r.value > 0;
          assert key in env[1..][r.value - 1];
          assert r'.Some?;
          assert key !in env[r'.value + 1] || r'.value + 1 >= r.value;
        } else {
          forall j | 0 <= j < |env[1..]|
            ensures key !in env[1..][j]
          {
            assert env[1..][j] == env[j + 1];
          }
        }
      }
    }
  }

  /** Assignment rebinds `key` in the frame that owns it and changes nothing else: every
      other frame, and every other binding of that frame, stays as it was. */
  lemma SetChangesOneBinding(key: string, value: Value, env: Env)
    requires SetVariableValue(key, value, env).Ok?
    ensures var env', i := SetVariableValue(key, value, env).value, FindVariableValue(key, env).value;
            |env'| == |env|
            && (forall j :: 0 <= j < |env| && j != i ==> env'[j] == env[j])
            && env'[i].Keys == env[i].Keys && env'[i][key] == value
            && (forall k :: k in env[i] && k != key ==> env'[i][k] == env[i][k])
  {
  }

  /** After assignment the visible bindings are the old ones with `key` rebound. */
  lemma SetUpdatesVisible(key: string, value: Value, env: Env, k: string)
    requires SetVariableValue(key, value, env).Ok?
    ensures var env' := SetVariableValue(key, value, env).value;
            LookupVariableValue(k, env')
            == if k == key then Ok(value) else LookupVariableValue(k, env)
  {
    var env' := SetVariableValue(key, value, env).value;
    var i := FindVariableValue(key, env).value;
    if k != key {
      forall j | 0 <= j < |env|
        ensures k in env'[j] <==> k in env[j]
      {
      }
      var r, r' := FindVariableValue(k, env), FindVariableValue(k, env');
      assert r' == r;
    }
  }

  // extendEnvironment

  /** The arity check of `extendEnvironment`: both lengths are taken, parameters first,
      and a proper list of each; more values than parameters is "Too many arguments",
      fewer is "Too few arguments". On success the host builds a frame and returns
      nothing, so the result is undefined. */
  function ExtendEnvironment(vars: Value, vals: Value): (r: Result<Value>)
    ensures r == if !IsList(vars) || !IsList(vals) then Err(TypeError)
                 else if |Elements(vars)| == |Elements(vals)| then Ok(Undefined)
                 else if |Elements(vars)| < |Elements(vals)| then Err(TooManyArguments)
                 else Err(TooFewArguments)
  {
    var nVars :- Length(vars);
    var nVals :- Length(vals);
    if nVars == nVals then Ok(Undefined)
    else if nVars < nVals then Err(TooManyArguments)
    else Err(TooFewArguments)
  }

  /** For lists built from sequences, the check compares the numbers of parameters and
      values. */
  lemma ExtendEnvironmentOfLists(params: seq<Value>, args: seq<Value>)
    ensures ExtendEnvironment(ListOf(params), ListOf(args))
            == if |params| == |args| then Ok(Undefined)
               else if |params| < |args| then Err(TooManyArguments)
               else Err(TooFewArguments)
  {
    ChainParts(params, NilV);
    ChainParts(args, NilV);
  }
}

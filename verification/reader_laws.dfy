/** What the reader promises: a parenthesised run of elements reads as the proper list
    of those elements, an unclosed one fails with "expected ')'", and every value that
    has a token form reads back from that form, consuming exactly its tokens. */
module ReaderLaws {
  import opened Results
  import opened Values
  import opened Reader
  import Numerals

  /** The tokens `u` sit in `ix` from position `c` on. */
  predicate At(ix: seq<string>, c: nat, u: seq<string>)
  {
    c + |u| <= |ix| && ix[c..c + |u|] == u
  }

  lemma AtSplit(ix: seq<string>, c: nat, a: seq<string>, b: seq<string>)
    requires At(ix, c, a + b)
    ensures At(ix, c, a) && At(ix, c + |a|, b)
  {
    assert ix[c..c + |a|] == (a + b)[..|a|];
    assert ix[c + |a|..c + |a| + |b|] == (a + b)[|a|..];
  }

  lemma AtFirst(ix: seq<string>, c: nat, u: seq<string>)
    requires At(ix, c, u) && |u| > 0
    ensures c < |ix| && ix[c] == u[0]
  {
    assert ix[c..c + |u|][0] == u[0];
  }

  /** Position `c` starts an element of a list: a token that does not close the list or
      mark its tail, from which one value `v` is read, ending at `c'`. */
  ghost predicate ElementAt(ix: seq<string>, strs: seq<string>, c: nat, v: Value, c': nat)
  {
    c < |ix| && ix[c] != ")" && ix[c] != "." && Parse(Rdr(ix, c), strs) == Ok((v, Rdr(ix, c')))
  }

  /** Elements `vs` read one after another from positions `cs`: if a `)` follows them the
      list reader returns their proper list and consumes the `)`; if the tokens end
      there it fails with "expected ')'". */
  lemma {:induction false} ParseListOfElements(ix: seq<string>, strs: seq<string>,
                                               cs: seq<nat>, vs: seq<Value>, started: bool)
    requires |cs| == |vs| + 1 && cs[0] <= |ix| && cs[|vs|] <= |ix|
    requires forall k :: 0 <= k < |vs| ==> ElementAt(ix, strs, cs[k], vs[k], cs[k + 1])
    ensures cs[|vs|] == |ix| ==>
              ParseList(Rdr(ix, cs[0]), strs, started) == Err(ExpectedCloseParen)
    ensures cs[|vs|] < |ix| && ix[cs[|vs|]] == ")" ==>
              ParseList(Rdr(ix, cs[0]), strs, started) == Ok((ListOf(vs), Rdr(ix, cs[|vs|] + 1)))
    decreases |vs|
  {
    var n := |vs|;
    if n == 0 {
      if cs[0] == |ix| {
        ParseListAtEnd(ix, cs[0], strs, started);
      } else if ix[cs[0]] == ")" {
        ParseListAtClose(ix, cs[0], strs, started);
      }
    } else {
      assert ElementAt(ix, strs, cs[0], vs[0], cs[1]);
      forall k | 0 <= k < |vs[1..]|
        ensures ElementAt(ix, strs, cs[1..][k], vs[1..][k], cs[1..][k + 1])
      {
        assert ElementAt(ix, strs, cs[k + 1], vs[k + 1], cs[k + 2]);
      }
      ParseListOfElements(ix, strs, cs[1..], vs[1..], true);
      ParseListAtElement(ix, cs[0], strs, started);
      assert ListOf(vs) == Pair(vs[0], ListOf(vs[1..]));
    }
  }

  /** `( e1 ... en )` reads as the proper list of the `ei`, in order; the same tokens
      without their `)` at the end of the input fail with "expected ')'". */
  lemma ParseParenthesised(ix: seq<string>, strs: seq<string>, cs: seq<nat>, vs: seq<Value>)
    requires |cs| == |vs| + 1 && 1 <= cs[0] <= |ix| && ix[cs[0] - 1] == "(" && cs[|vs|] <= |ix|
    requires forall k :: 0 <= k < |vs| ==> ElementAt(ix, strs, cs[k], vs[k], cs[k + 1])
    ensures cs[|vs|] == |ix| ==> Parse(Rdr(ix, cs[0] - 1), strs) == Err(ExpectedCloseParen)
    ensures cs[|vs|] < |ix| && ix[cs[|vs|]] == ")" ==>
              Parse(Rdr(ix, cs[0] - 1), strs) == Ok((ListOf(vs), Rdr(ix, cs[|vs|] + 1)))
  {
    ParseListOfElements(ix, strs, cs, vs, false);
  }

  // The token form of a value.

  /** A token that reads back as the symbol it names. */
  predicate PlainSymbol(s: string)
  {
    !(|s| > 0 && s[0] == '$') && s != "(" && s != "'" && s != ")" && s != "."
    && Numerals.LeadingInteger(s).None?
  }

  /** Values with a token form: numbers, strings held in the side table, plain symbols
      and pairs of such values. The host's `false` and `undefined` have none. */
  predicate Readable(v: Value, strs: seq<string>)
  {
    match v
    case Num(_) => true
    case Text(s) => if IsStringValue(v) then s[1..] in strs else PlainSymbol(s)
    case Pair(a, d) => Readable(a, strs) && Readable(d, strs)
    case False => false
    case Undefined => false
  }

  function IndexOf(strs: seq<string>, x: string): (i: nat)
    requires x in strs
    ensures i < |strs| && strs[i] == x
  {
    if strs[0] == x then 0 else 1 + IndexOf(strs[1..], x)
  }

  /** The tokens of a readable value: a list in parentheses, with `. tail` before the
      closing parenthesis when its last cdr is not nil. */
  function Unparse(v: Value, strs: seq<string>): (u: seq<string>)
    requires Readable(v, strs)
    ensures |u| > 0
    decreases v, 2
  {
    match v
    case Num(n) => [Numerals.IntToString(n)]
    case Text(s) =>
      if IsStringValue(v) then ["$" + Numerals.NatToString(IndexOf(strs, s[1..]))] else [s]
    case Pair(_, _) => ["("] + UnparseCells(v, strs)
  }

  /** The tokens of a list after its `(`. */
  function UnparseCells(v: Value, strs: seq<string>): (u: seq<string>)
    requires v.Pair? && Readable(v, strs)
    decreases v, 1
  {
    Unparse(v.car, strs) + UnparseRest(v, strs)
  }

  /** The tokens of a list after its first element: `)`, the next cells, or `. tail )`. */
  function UnparseRest(v: Value, strs: seq<string>): (u: seq<string>)
    requires v.Pair? && Readable(v, strs)
    decreases v, 0
  {
    if v.cdr == NilV then [")"]
    else if v.cdr.Pair? then UnparseCells(v.cdr, strs)
    else ["."] + Unparse(v.cdr, strs) + [")"]
  }

  /** No value's token form starts with a token that ends a list or marks its tail. */
  lemma UnparseFirstToken(v: Value, strs: seq<string>)
    requires Readable(v, strs)
    ensures Unparse(v, strs)[0] != ")" && Unparse(v, strs)[0] != "."
  {
    if v.Num? {
      Numerals.IntToStringFirst(v.n);
    } else if IsStringValue(v) {
      var t := Unparse(v, strs)[0];
      assert t[0] == '$';
    }
  }

  /** Reading an atom back from its one token. */
  lemma ParseAtomUnparse(v: Value, strs: seq<string>, ix: seq<string>, c: nat)
    requires Readable(v, strs) && !v.Pair? && At(ix, c, Unparse(v, strs))
    ensures |Unparse(v, strs)| == 1
    ensures Parse(Rdr(ix, c), strs) == Ok((v, Rdr(ix, c + 1)))
  {
    var t := Unparse(v, strs)[0];
    AtFirst(ix, c, Unparse(v, strs));
    match v
    case Num(n) =>
      Numerals.IntToStringFirst(n);
      Numerals.LeadingIntegerOfIntToString(n);
      assert t[0] != '$' && t[0] != '(' && t[0] != '\'';
      ParseAtomToken(ix, c, strs);
    case Text(s) =>
      if IsStringValue(v) {
        var i := IndexOf(strs, s[1..]);
        ParsePlaceholder(ix, c, strs, i);
        assert "$" + strs[i] == s;
      } else {
        ParseAtomToken(ix, c, strs);
      }
  }

  lemma ParseOpenedList(ix: seq<string>, c: nat, c1: nat, strs: seq<string>, v: Value, e: nat)
    requires c1 == c + 1 && c1 <= e <= |ix| && ix[c] == "("
    requires ParseList(Rdr(ix, c1), strs, false) == Ok((v, Rdr(ix, e)))
    ensures Parse(Rdr(ix, c), strs) == Ok((v, Rdr(ix, e)))
  {
    ParseAtOpen(ix, c, strs);
  }

  /** A readable value reads back from its token form, consuming exactly those tokens,
      wherever they sit in the token array. */
  lemma {:induction false} ParseUnparse(v: Value, strs: seq<string>, ix: seq<string>, c: nat, e: nat)
    requires Readable(v, strs) && At(ix, c, Unparse(v, strs)) && e == c + |Unparse(v, strs)|
    ensures Parse(Rdr(ix, c), strs) == Ok((v, Rdr(ix, e)))
    decreases v, 3
  {
    if v.Pair? {
      var u := Unparse(v, strs);
      var cells := UnparseCells(v, strs);
      assert u == ["("] + cells;
      AtSplit(ix, c, ["("], cells);
      AtFirst(ix, c, u);
      var c1 := c + 1;
      assert e == c1 + |cells|;
      ParseCellsUnparse(v, strs, ix, c1, e, false);
      ParseOpenedList(ix, c, c1, strs, v, e);
    } else {
      ParseAtomUnparse(v, strs, ix, c);
    }
  }

  /** Where the parts of a list's cells sit: its first element's tokens, starting with
      neither `)` nor `.`, and the rest right after them. */
  lemma CellsLayout(v: Value, strs: seq<string>, ix: seq<string>, c: nat)
    requires v.Pair? && Readable(v, strs) && At(ix, c, UnparseCells(v, strs))
    ensures var c1 := c + |Unparse(v.car, strs)|;
            At(ix, c, Unparse(v.car, strs)) && At(ix, c1, UnparseRest(v, strs))
            && c1 + |UnparseRest(v, strs)| == c + |UnparseCells(v, strs)|
            && c < |ix| && ix[c] != ")" && ix[c] != "." && c1 <= |ix|
  {
    AtSplit(ix, c, Unparse(v.car, strs), UnparseRest(v, strs));
    UnparseFirstToken(v.car, strs);
    AtFirst(ix, c, Unparse(v.car, strs));
  }

  lemma {:induction false} ParseCellsUnparse(v: Value, strs: seq<string>, ix: seq<string>,
                                             c: nat, e: nat, started: bool)
    requires v.Pair? && Readable(v, strs) && At(ix, c, UnparseCells(v, strs))
    requires e == c + |UnparseCells(v, strs)|
    ensures ParseList(Rdr(ix, c), strs, started) == Ok((v, Rdr(ix, e)))
    decreases v, 2
  {
    var c1 := c + |Unparse(v.car, strs)|;
    CellsLayout(v, strs, ix, c);
    ParseUnparse(v.car, strs, ix, c, c1);
    ParseRestUnparse(v, strs, ix, c1, e);
    ParsePairOfParts(ix, c, c1, e, strs, started, v);
  }

  /** The element-then-rest step of the list reader, for a pair read in its two parts. */
  lemma ParsePairOfParts(ix: seq<string>, c: nat, c1: nat, e: nat, strs: seq<string>,
                         started: bool, v: Value)
    requires v.Pair? && c < |ix| && ix[c] != ")" && ix[c] != "." && c1 <= |ix|
    requires Parse(Rdr(ix, c), strs) == Ok((v.car, Rdr(ix, c1)))
    requires ParseList(Rdr(ix, c1), strs, true) == Ok((v.cdr, Rdr(ix, e)))
    ensures ParseList(Rdr(ix, c), strs, started) == Ok((v, Rdr(ix, e)))
  {
    ParseListElementThenRest(ix, c, c1, e, strs, started, v.car, v.cdr);
  }

  /** The tokens after a list's first element read as the rest of that list. */
  lemma {:induction false} ParseRestUnparse(v: Value, strs: seq<string>, ix: seq<string>,
                                            c1: nat, e: nat)
    requires v.Pair? && Readable(v, strs)
    requires At(ix, c1, UnparseRest(v, strs)) && e == c1 + |UnparseRest(v, strs)|
    ensures ParseList(Rdr(ix, c1), strs, true) == Ok((v.cdr, Rdr(ix, e)))
    decreases v, 1
  {
    if v.cdr == NilV {
      AtFirst(ix, c1, [")"]);
      ParseListAtClose(ix, c1, strs, true);
    } else if v.cdr.Pair? {
      ParseCellsUnparse(v.cdr, strs, ix, c1, e, true);
    } else {
      ParseDottedUnparse(v.cdr, strs, ix, c1, e);
    }
  }

  /** The tokens `. tail )` after an element read as that tail. */
  lemma ParseDottedUnparse(d: Value, strs: seq<string>, ix: seq<string>, c1: nat, e: nat)
    requires !d.Pair? && Readable(d, strs)
    requires At(ix, c1, ["."] + Unparse(d, strs) + [")"]) && e == c1 + |Unparse(d, strs)| + 2
    ensures ParseList(Rdr(ix, c1), strs, true) == Ok((d, Rdr(ix, e)))
  {
    var tail := Unparse(d, strs);
    var c2 := c1 + 1;
    var c3 := c2 + |tail|;
    assert At(ix, c1, ["."]) && At(ix, c2, tail) && At(ix, c3, [")"]) by {
      AtSplit(ix, c1, ["."] + tail, [")"]);
      AtSplit(ix, c1, ["."], tail);
    }
    AtFirst(ix, c1, ["."]);
    AtFirst(ix, c3, [")"]);
    ParseAtomUnparse(d, strs, ix, c2);
    ParseListDottedTail(ix, c1, c3, strs, d);
  }

  /** Reading the whole token form of a readable value gives the value and uses every token. */
  lemma ReadBackUnparse(v: Value, strs: seq<string>)
    requires Readable(v, strs)
    ensures Parse(NewRdr(Unparse(v, strs)), strs)
            == Ok((v, Rdr(Unparse(v, strs), |Unparse(v, strs)|)))
  {
    var u := Unparse(v, strs);
    assert u[0..0 + |u|] == u;
    ParseUnparse(v, strs, u, 0, |u|);
  }
}

/** The token cursor `Rdr` and the recursive-descent reader `parse` / `parseList`.

    The reader works on the token list and the string side table that the tokeniser
    produces. Its lists are fresh, so the source's in-place extension of the last pair
    is modelled by building the list from its end. */
module Reader {
  import opened Results
  import opened Values
  import Numerals

  /** A cursor over a token array; `cursor` never passes the end. */
  datatype Rdr = Rdr(ix: seq<string>, cursor: nat)
  {
    predicate Valid()
    {
      cursor <= |ix|
    }

    function Remaining(): nat
      requires Valid()
    {
      |ix| - cursor
    }
  }

  /** A new cursor at the first token. */
  function NewRdr(ix: seq<string>): (r: Rdr)
    ensures r.Valid() && r.ix == ix && r.Remaining() == |ix|
  {
    Rdr(ix, 0)
  }

  /** The token under the cursor, or `None` (the source's null) at the end. */
  function Peek(r: Rdr): (t: Option<string>)
    requires r.Valid()
    ensures t.None? <==> r.cursor == |r.ix|
    ensures t.Some? ==> t.value == r.ix[r.cursor]
  {
    if r.cursor == |r.ix| then None else Some(r.ix[r.cursor])
  }

  /** The token under the cursor and the cursor one step on; at the end, `None` and the
      cursor unchanged. */
  function Pop(r: Rdr): (res: (Option<string>, Rdr))
    requires r.Valid()
    ensures res.1.Valid() && res.1.ix == r.ix
    ensures res.0.None? <==> r.cursor == |r.ix|
    ensures res.0.None? ==> res.1 == r
    ensures res.0.Some? ==> res.0.value == r.ix[r.cursor] && res.1.cursor == r.cursor + 1
  {
    if r.cursor == |r.ix| then (None, r) else (Some(r.ix[r.cursor]), Rdr(r.ix, r.cursor + 1))
  }

  /** Peeking never moves the cursor: it shows the token the next pop returns. */
  lemma PeekAgreesWithPop(r: Rdr)
    requires r.Valid()
    ensures Peek(r) == Pop(r).0
    ensures Pop(r).1.Remaining() == if Peek(r).None? then r.Remaining() else r.Remaining() - 1
  {
  }

  /** The side-table entry a `$i` placeholder names; the host reads `strs[i]` as
      undefined, hence the text "undefined", when `i` is not an index of the table. */
  function TableEntry(strs: seq<string>, index: string): string
  {
    match Numerals.LeadingInteger(index)
    case Some(i) => if 0 <= i < |strs| then strs[i] else "undefined"
    case None => "undefined"
  }

  /** The value a token other than `(` and `'` reads as: a string for a `$` placeholder,
      a number when the token starts with an integer, a symbol otherwise. */
  function Atom(token: string, strs: seq<string>): Value
  {
    if |token| > 0 && token[0] == '$' then Text("$" + TableEntry(strs, token[1..]))
    else
      match Numerals.LeadingInteger(token)
      case Some(n) => Num(n)
      case None => Text(token)
  }

  /** `parse`: reads one value, starting with the next token. */
  function Parse(r: Rdr, strs: seq<string>): (res: Result<(Value, Rdr)>)
    requires r.Valid()
    ensures r.cursor == |r.ix| ==> res == Err(TypeError)
    ensures res.Ok? ==> res.value.1.Valid() && res.value.1.ix == r.ix
    ensures res.Ok? ==> res.value.1.cursor > r.cursor
    decreases r.Remaining(), 0
  {
    var (tok, r1) := Pop(r);
    match tok
    case None => Err(TypeError)  // token[0] on null
    case Some(t) =>
      if t == "(" then ParseList(r1, strs, false)
      else if t == "'" then
        var q :- Parse(r1, strs);
        Ok((Pair(Text("quote"), Pair(q.0, NilV)), q.1))
      else Ok((Atom(t, strs), r1))
  }

  /** `parseList`, after the opening `(`: the rest of the list. `started` records that an
      element has been read; a `.` before any element has no pair to attach its value to,
      and the source's assignment to the cdr of the string "nil" is silently dropped. The
      token after the dotted value is discarded unchecked. */
  function ParseList(r: Rdr, strs: seq<string>, started: bool): (res: Result<(Value, Rdr)>)
    requires r.Valid()
    ensures res.Ok? ==> res.value.1.Valid() && res.value.1.ix == r.ix
    ensures res.Ok? ==> res.value.1.cursor > r.cursor
    decreases r.Remaining(), 1
  {
    match Peek(r)
    case None => Err(ExpectedCloseParen)
    case Some(t) =>
      if t == ")" then Ok((NilV, Pop(r).1))
      else if t == "." then
        var tail :- Parse(Pop(r).1, strs);
        var r3 := Pop(tail.1).1;
        Ok((if started then tail.0 else NilV, r3))
      else
        var x :- Parse(r, strs);
        var rest :- ParseList(x.1, strs, true);
        Ok((Pair(x.0, rest.0), rest.1))
  }

  // One step of the list reader for each kind of token under the cursor.

  lemma ParseListAtEnd(ix: seq<string>, c: nat, strs: seq<string>, started: bool)
    requires c == |ix|
    ensures ParseList(Rdr(ix, c), strs, started) == Err(ExpectedCloseParen)
  {
  }

  lemma ParseListAtClose(ix: seq<string>, c: nat, strs: seq<string>, started: bool)
    requires c < |ix| && ix[c] == ")"
    ensures ParseList(Rdr(ix, c), strs, started) == Ok((NilV, Rdr(ix, c + 1)))
  {
  }

  lemma ParseListAtElement(ix: seq<string>, c: nat, strs: seq<string>, started: bool)
    requires c < |ix| && ix[c] != ")" && ix[c] != "."
    ensures ParseList(Rdr(ix, c), strs, started)
            == match Parse(Rdr(ix, c), strs)
               case Err(e) => Err(e)
               case Ok(x) =>
                 match ParseList(x.1, strs, true)
                 case Err(e) => Err(e)
                 case Ok(rest) => Ok((Pair(x.0, rest.0), rest.1))
  {
  }

  /** An element followed by the rest of the list gives their pair. */
  lemma ParseListElementThenRest(ix: seq<string>, c: nat, c1: nat, e: nat, strs: seq<string>,
                                 started: bool, a: Value, d: Value)
    requires c < |ix| && ix[c] != ")" && ix[c] != "." && c1 <= |ix|
    requires Parse(Rdr(ix, c), strs) == Ok((a, Rdr(ix, c1)))
    requires ParseList(Rdr(ix, c1), strs, true) == Ok((d, Rdr(ix, e)))
    ensures ParseList(Rdr(ix, c), strs, started) == Ok((Pair(a, d), Rdr(ix, e)))
  {
    ParseListAtElement(ix, c, strs, started);
  }

  /** After a started list, `.` then a value then one more token ends the list with that
      value as its final cdr. */
  lemma ParseListDottedTail(ix: seq<string>, c: nat, c2: nat, strs: seq<string>, d: Value)
    requires c < |ix| && ix[c] == "." && c2 < |ix|
    requires Parse(Rdr(ix, c + 1), strs) == Ok((d, Rdr(ix, c2)))
    ensures ParseList(Rdr(ix, c), strs, true) == Ok((d, Rdr(ix, c2 + 1)))
  {
    ParseListAtDot(ix, c, strs, true);
  }

  lemma ParseListAtDot(ix: seq<string>, c: nat, strs: seq<string>, started: bool)
    requires c < |ix| && ix[c] == "."
    ensures ParseList(Rdr(ix, c), strs, started)
            == match Parse(Rdr(ix, c + 1), strs)
               case Err(e) => Err(e)
               case Ok(tail) => Ok((if started then tail.0 else NilV, Pop(tail.1).1))
  {
  }

  lemma ParseAtOpen(ix: seq<string>, c: nat, strs: seq<string>)
    requires c < |ix| && ix[c] == "("
    ensures Parse(Rdr(ix, c), strs) == ParseList(Rdr(ix, c + 1), strs, false)
  {
  }

  /** A quote token reads the next value `x` as the list `(quote x)`. */
  lemma ParseQuote(ix: seq<string>, c: nat, strs: seq<string>, x: Value, c': nat)
    requires c < |ix| && ix[c] == "'"
    requires Parse(Rdr(ix, c + 1), strs) == Ok((x, Rdr(ix, c')))
    ensures Parse(Rdr(ix, c), strs) == Ok((ListOf([Text("quote"), x]), Rdr(ix, c')))
  {
    assert [Text("quote"), x][1..] == [x];
    assert [x][1..] == [];
    assert Chain([x], NilV) == Pair(x, NilV);
    assert ListOf([Text("quote"), x]) == Pair(Text("quote"), Pair(x, NilV));
    var r := Rdr(ix, c);
    assert Pop(r) == (Some("'"), Rdr(ix, c + 1));
    assert "'" != "(";
  }

  /** Any token other than `(` and `'` is read on its own, as its atom. */
  lemma ParseAtomToken(ix: seq<string>, c: nat, strs: seq<string>)
    requires c < |ix| && ix[c] != "(" && ix[c] != "'"
    ensures Parse(Rdr(ix, c), strs) == Ok((Atom(ix[c], strs), Rdr(ix, c + 1)))
  {
  }

  lemma AtomOfPlaceholder(strs: seq<string>, i: nat)
    requires i < |strs|
    ensures Atom("$" + Numerals.NatToString(i), strs) == Text("$" + strs[i])
  {
    var d := Numerals.NatToString(i);
    var t := "$" + d;
    assert t[1..] == d;
    Numerals.LeadingIntegerOfNatToString(i);
  }

  /** A placeholder `$i` for an index `i` of the side table reads as the string value
      `"$" + strs[i]`. */
  lemma ParsePlaceholder(ix: seq<string>, c: nat, strs: seq<string>, i: nat)
    requires i < |strs| && c < |ix| && ix[c] == "$" + Numerals.NatToString(i)
    ensures Parse(Rdr(ix, c), strs) == Ok((Text("$" + strs[i]), Rdr(ix, c + 1)))
  {
    assert ix[c][0] == '$';
    ParseAtomToken(ix, c, strs);
    AtomOfPlaceholder(strs, i);
  }
}

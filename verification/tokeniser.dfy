/** The tokeniser `tokenise(s)`, as a character-level model of its four regular-expression
    passes and the final split:

    1. each string literal `"..."` is moved to a side table and replaced by `$i`, its
       index in the table;
    2. each delimiter `( ) [ ] ' ` ,` is padded with a space on both sides, with `[`
       turned into `(` on the way;
    3. each run of two or more whitespace characters becomes one space;
    4. leading and trailing whitespace is trimmed;
    5. the text is split at every single space.

    Step 2 as written leaves `]` as it is, although the code around it evidently means
    to turn it into `)`; `TokeniseWith` takes that choice as a parameter. */
module Tokeniser {
  import opened Results
  import Numerals
  import Reader

  /** The side table of string literals and a cursor over the tokens. */
  datatype TokenResult = TokenResult(strs: seq<string>, tokens: Reader.Rdr)

  // Pass 1: string literals

  /** The characters the regular-expression `.` does not match. */
  predicate IsLineTerminator(c: char)
  {
    c == '\n' || c == '\r' || c as int == 0x2028 || c as int == 0x2029
  }

  /** The body of a string literal, `(?:[^"\\]|\\.)*`: characters other than a quote and
      a backslash, and backslash pairs whose second character is not a line terminator. */
  predicate LiteralBody(t: string)
    decreases |t|
  {
    if |t| == 0 then true
    else if t[0] == '\\' then |t| >= 2 && !IsLineTerminator(t[1]) && LiteralBody(t[2..])
    else t[0] != '"' && LiteralBody(t[1..])
  }

  /** The index of the quote that closes a literal whose body starts at `k`, or `None`
      when the body is cut short by the end of the text or a backslash before a line
      terminator. */
  function ClosingQuote(s: string, k: nat): (r: Option<nat>)
    ensures r.Some? ==> k <= r.value < |s| && s[r.value] == '"'
    decreases |s| - k
  {
    if k >= |s| then None
    else if s[k] == '"' then Some(k)
    else if s[k] == '\\' then
      if k + 1 < |s| && !IsLineTerminator(s[k + 1]) then ClosingQuote(s, k + 2) else None
    else ClosingQuote(s, k + 1)
  }

  /** Two literal bodies side by side make one. */
  lemma {:induction false} LiteralBodyConcat(a: string, b: string)
    requires LiteralBody(a) && LiteralBody(b)
    ensures LiteralBody(a + b)
    decreases |a|
  {
    if |a| == 0 {
      assert a + b == b;
    } else if a[0] == '\\' {
      LiteralBodyConcat(a[2..], b);
      assert (a + b)[2..] == a[2..] + b;
    } else {
      LiteralBodyConcat(a[1..], b);
      assert (a + b)[1..] == a[1..] + b;
    }
  }

  /** The closing quote found is the one after a literal body; the body contains no quote,
      so that quote is the only possible match. */
  lemma {:induction false} ClosingQuoteSound(s: string, k: nat)
    requires ClosingQuote(s, k).Some?
    ensures LiteralBody(s[k..ClosingQuote(s, k).value])
    decreases |s| - k
  {
    var j := ClosingQuote(s, k).value;
    if s[k] == '"' {
      assert s[k..j] == "";
    } else if s[k] == '\\' {
      ClosingQuoteSound(s, k + 2);
      assert s[k..j][2..] == s[k + 2..j];
    } else {
      ClosingQuoteSound(s, k + 1);
      assert s[k..j][1..] == s[k + 1..j];
    }
  }

  /** Conversely, a literal body followed by a quote is found. */
  lemma {:induction false} ClosingQuoteComplete(s: string, k: nat, j: nat)
    requires k <= j < |s| && s[j] == '"' && LiteralBody(s[k..j])
    ensures ClosingQuote(s, k) == Some(j)
    decreases j - k
  {
    if k < j {
      var t := s[k..j];
      assert t[0] == s[k];
      if s[k] == '\\' {
        assert t[1] == s[k + 1];
        assert t[2..] == s[k + 2..j];
        ClosingQuoteComplete(s, k + 2, j);
      } else {
        assert t[1..] == s[k + 1..j];
        ClosingQuoteComplete(s, k + 1, j);
      }
    }
  }

  /** Pass 1 from the text `s` on, with `strs` the literals already extracted: a literal
      becomes `$i` and its body, escapes left as they are, is appended to the table; a
      quote that opens no complete literal stays in the text. */
  function ExtractStrings(s: string, strs: seq<string>): (r: (string, seq<string>))
    ensures |strs| <= |r.1| && r.1[..|strs|] == strs
    decreases |s|
  {
    if |s| == 0 then ("", strs)
    else if s[0] == '"' then
      match ClosingQuote(s, 1)
      case Some(j) =>
        var rest := ExtractStrings(s[j + 1..], strs + [s[1..j]]);
        assert rest.1[..|strs|] == (strs + [s[1..j]])[..|strs|];
        ("$" + Numerals.NatToString(|strs|) + rest.0, rest.1)
      case None =>
        var rest := ExtractStrings(s[1..], strs);
        ("\"" + rest.0, rest.1)
    else
      var rest := ExtractStrings(s[1..], strs);
      ([s[0]] + rest.0, rest.1)
  }

  predicate NoQuotes(s: string)
  {
    forall i :: 0 <= i < |s| ==> s[i] != '"'
  }

  /** Text without quotes is left as it is and adds nothing to the table. */
  lemma {:induction false} ExtractStringsNoQuotes(s: string, strs: seq<string>)
    requires NoQuotes(s)
    ensures ExtractStrings(s, strs) == (s, strs)
    decreases |s|
  {
    if |s| > 0 {
      assert s[0] != '"';
      ExtractStringsNoQuotes(s[1..], strs);
      assert [s[0]] + s[1..] == s;
    }
  }

  /** A lone literal becomes the placeholder `$0`, and its body, escapes left as they
      are, is the table's only entry. */
  lemma ExtractStringsLiteral(t: string)
    requires LiteralBody(t)
    ensures ExtractStrings("\"" + t + "\"", []) == ("$0", [t])
  {
    var s := "\"" + t + "\"";
    var j := |t| + 1;
    assert s[1..j] == t;
    ClosingQuoteComplete(s, 1, j);
    assert s[0] == '"';
    assert s[j + 1..] == "";
    assert Numerals.NatToString(0) == "0";
    assert "$" + "0" + "" == "$0";
  }

  /** Text before the first quote is kept as it is, and pass 1 goes on from that quote. */
  lemma {:induction false} ExtractStringsPrefix(a: string, q: string, strs: seq<string>)
    requires NoQuotes(a)
    ensures ExtractStrings(a + q, strs) == (a + ExtractStrings(q, strs).0, ExtractStrings(q, strs).1)
    decreases |a|
  {
    if |a| == 0 {
      assert a + q == q;
      assert a + ExtractStrings(q, strs).0 == ExtractStrings(q, strs).0;
    } else {
      var s := a + q;
      assert s[0] == a[0] && s[0] != '"';
      assert s[1..] == a[1..] + q;
      ExtractStringsPrefix(a[1..], q, strs);
      assert [a[0]] + (a[1..] + ExtractStrings(q, strs).0) == a + ExtractStrings(q, strs).0;
    }
  }

  /** One step of pass 1 on any text: the text up to the first quote is kept; a literal
      that starts at that quote becomes `$i`, with `i` the number of literals before it,
      and its body is stored at index `i`; a quote that starts no complete literal is
      kept. Pass 1 then goes on after the literal, or after the quote. */
  lemma ExtractStringsStep(a: string, q: string, strs: seq<string>)
    requires NoQuotes(a) && |q| > 0 && q[0] == '"'
    ensures ClosingQuote(q, 1).Some? ==>
              var j := ClosingQuote(q, 1).value;
              var rest := ExtractStrings(q[j + 1..], strs + [q[1..j]]);
              ExtractStrings(a + q, strs)
              == (a + "$" + Numerals.NatToString(|strs|) + rest.0, rest.1)
              && rest.1[|strs|] == q[1..j]
    ensures ClosingQuote(q, 1).None? ==>
              var rest := ExtractStrings(q[1..], strs);
              ExtractStrings(a + q, strs) == (a + "\"" + rest.0, rest.1)
  {
    ExtractStringsPrefix(a, q, strs);
    if ClosingQuote(q, 1).Some? {
      var j := ClosingQuote(q, 1).value;
      var rest := ExtractStrings(q[j + 1..], strs + [q[1..j]]);
      assert rest.1[..|strs| + 1] == strs + [q[1..j]];
      assert rest.1[|strs|] == rest.1[..|strs| + 1][|strs|];
      var p := "$" + Numerals.NatToString(|strs|);
      assert ExtractStrings(q, strs) == (p + rest.0, rest.1);
      assert a + (p + rest.0) == a + "$" + Numerals.NatToString(|strs|) + rest.0;
    } else {
      var rest := ExtractStrings(q[1..], strs);
      assert ExtractStrings(q, strs) == ("\"" + rest.0, rest.1);
      assert a + ("\"" + rest.0) == a + "\"" + rest.0;
    }
  }

  // Pass 2: delimiters

  predicate IsDelimiter(c: char)
  {
    c == '(' || c == ')' || c == '[' || c == ']' || c == '\'' || c == '`' || c == ','
  }

  /** The padded form of one character; `[` becomes `(`, and `]` becomes `)` only when
      `closeBracket` is set. */
  function Pad(c: char, closeBracket: bool): string
  {
    if c == '[' then " ( "
    else if c == ']' && closeBracket then " ) "
    else if IsDelimiter(c) then [' ', c, ' ']
    else [c]
  }

  function PadDelimiters(s: string, closeBracket: bool): string
  {
    if |s| == 0 then "" else Pad(s[0], closeBracket) + PadDelimiters(s[1..], closeBracket)
  }

  predicate NoDelimiters(s: string)
  {
    forall i :: 0 <= i < |s| ==> !IsDelimiter(s[i])
  }

  /** Text without delimiters is left as it is. */
  lemma {:induction false} PadNoDelimiters(s: string, closeBracket: bool)
    requires NoDelimiters(s)
    ensures PadDelimiters(s, closeBracket) == s
    decreases |s|
  {
    if |s| > 0 {
      assert !IsDelimiter(s[0]);
      PadNoDelimiters(s[1..], closeBracket);
      assert [s[0]] + s[1..] == s;
    }
  }

  /** The text with square brackets written as parentheses. */
  function BracketsAsParens(s: string): string
  {
    if |s| == 0 then ""
    else (if s[0] == '[' then "(" else if s[0] == ']' then ")" else [s[0]]) + BracketsAsParens(s[1..])
  }

  /** With `]` mapped, padding treats square brackets exactly as parentheses. */
  lemma {:induction false} PadBrackets(s: string)
    ensures PadDelimiters(s, true) == PadDelimiters(BracketsAsParens(s), true)
    decreases |s|
  {
    if |s| > 0 {
      PadBrackets(s[1..]);
      var b := BracketsAsParens(s);
      var h := if s[0] == '[' then "(" else if s[0] == ']' then ")" else [s[0]];
      assert b == h + BracketsAsParens(s[1..]);
      assert b[0] == h[0] && b[1..] == BracketsAsParens(s[1..]);
    }
  }

  lemma {:induction false} BracketsKeepNoQuotes(s: string)
    requires NoQuotes(s)
    ensures NoQuotes(BracketsAsParens(s))
    decreases |s|
  {
    if |s| > 0 {
      BracketsKeepNoQuotes(s[1..]);
      var h := if s[0] == '[' then "(" else if s[0] == ']' then ")" else [s[0]];
      var rest := BracketsAsParens(s[1..]);
      assert BracketsAsParens(s) == h + rest;
      forall i | 0 <= i < |h + rest|
        ensures (h + rest)[i] != '"'
      {
        if i > 0 {
          assert (h + rest)[i] == rest[i - 1];
        } else {
          assert s[0] != '"';
        }
      }
    }
  }

  // Pass 3: runs of whitespace

  /** `s` with every run of two or more whitespace characters replaced by one space. */
  function CollapseSpaces(s: string): (r: string)
    ensures |s| > 0 ==> |r| > 0 && Numerals.IsSpace(r[0]) == Numerals.IsSpace(s[0])
    ensures |s| > 0 && !Numerals.IsSpace(s[0]) ==> r[0] == s[0]
    decreases |s|
  {
    if |s| >= 2 && Numerals.IsSpace(s[0]) && Numerals.IsSpace(s[1]) then
      Numerals.SkipSpacesShape(s);
      " " + CollapseSpaces(Numerals.SkipSpaces(s))
    else if |s| == 0 then ""
    else [s[0]] + CollapseSpaces(s[1..])
  }

  predicate NoSpaces(s: string)
  {
    forall i :: 0 <= i < |s| ==> !Numerals.IsSpace(s[i])
  }

  /** No two neighbours in `r` are both whitespace. */
  predicate NoRuns(r: string)
  {
    forall i :: 0 < i < |r| ==> !(Numerals.IsSpace(r[i - 1]) && Numerals.IsSpace(r[i]))
  }

  /** No two neighbours in the collapsed text are both whitespace. */
  lemma {:induction false} CollapseSpacesNoRuns(s: string)
    ensures NoRuns(CollapseSpaces(s))
    decreases |s|
  {
    var r := CollapseSpaces(s);
    if |s| >= 2 && Numerals.IsSpace(s[0]) && Numerals.IsSpace(s[1]) {
      Numerals.SkipSpacesShape(s);
      var t := Numerals.SkipSpaces(s);
      CollapseSpacesNoRuns(t);
      var rest := CollapseSpaces(t);
      assert r == " " + rest;
      if |t| > 0 {
        assert !Numerals.IsSpace(rest[0]);
      }
      forall i | 0 < i < |r|
        ensures !(Numerals.IsSpace(r[i - 1]) && Numerals.IsSpace(r[i]))
      {
        if i > 1 {
          assert r[i - 1] == rest[i - 2] && r[i] == rest[i - 1];
        } else {
          assert r[1] == rest[0];
        }
      }
    } else if |s| > 0 {
      CollapseSpacesNoRuns(s[1..]);
      var rest := CollapseSpaces(s[1..]);
      assert r == [s[0]] + rest;
      if |s| >= 2 {
        assert s[1..][0] == s[1];
      }
      forall i | 0 < i < |r|
        ensures !(Numerals.IsSpace(r[i - 1]) && Numerals.IsSpace(r[i]))
      {
        if i > 1 {
          assert r[i - 1] == rest[i - 2] && r[i] == rest[i - 1];
        } else {
          assert r[1] == rest[0];
        }
      }
    }
  }

  /** The characters other than whitespace, in order. */
  function Visible(s: string): string
  {
    if |s| == 0 then "" else (if Numerals.IsSpace(s[0]) then "" else [s[0]]) + Visible(s[1..])
  }

  lemma {:induction false} VisibleOfSpaces(s: string, n: nat)
    requires n <= |s| && forall i :: 0 <= i < n ==> Numerals.IsSpace(s[i])
    ensures Visible(s) == Visible(s[n..])
    decreases n
  {
    if n > 0 {
      VisibleOfSpaces(s[1..], n - 1);
      assert s[1..][n - 1..] == s[n..];
    }
  }

  /** Collapsing whitespace keeps every other character, in order. */
  lemma {:induction false} CollapseSpacesKeepsVisible(s: string)
    ensures Visible(CollapseSpaces(s)) == Visible(s)
    decreases |s|
  {
    if |s| >= 2 && Numerals.IsSpace(s[0]) && Numerals.IsSpace(s[1]) {
      Numerals.SkipSpacesShape(s);
      var t := Numerals.SkipSpaces(s);
      CollapseSpacesKeepsVisible(t);
      VisibleOfSpaces(s, |s| - |t|);
      assert (" " + CollapseSpaces(t))[1..] == CollapseSpaces(t);
    } else if |s| > 0 {
      CollapseSpacesKeepsVisible(s[1..]);
      assert ([s[0]] + CollapseSpaces(s[1..]))[1..] == CollapseSpaces(s[1..]);
    }
  }

  lemma {:induction false} CollapseNoSpaces(s: string)
    requires NoSpaces(s)
    ensures CollapseSpaces(s) == s
    decreases |s|
  {
    if |s| > 0 {
      CollapseNoSpaces(s[1..]);
      assert [s[0]] + s[1..] == s;
    }
  }

  // Pass 4: trimming

  /** `s` without its trailing whitespace. */
  function TrimEnd(s: string): (r: string)
    ensures |r| <= |s| && r == s[..|r|]
    ensures forall i :: |r| <= i < |s| ==> Numerals.IsSpace(s[i])
    ensures |r| > 0 ==> !Numerals.IsSpace(r[|r| - 1])
    decreases |s|
  {
    if |s| > 0 && Numerals.IsSpace(s[|s| - 1]) then TrimEnd(s[..|s| - 1]) else s
  }

  /** `s.trim()`: the text between the leading and the trailing whitespace. */
  function Trim(s: string): string
  {
    TrimEnd(Numerals.SkipSpaces(s))
  }

  /** Trimming drops whitespace only, from both ends, and stops at the first and the last
      other character. */
  lemma TrimShape(s: string)
    ensures var r, k := Trim(s), |s| - |Numerals.SkipSpaces(s)|;
            0 <= k && k + |r| <= |s| && s[k..k + |r|] == r
            && (forall i :: 0 <= i < k ==> Numerals.IsSpace(s[i]))
            && (forall i :: k + |r| <= i < |s| ==> Numerals.IsSpace(s[i]))
    ensures var r := Trim(s);
            |r| > 0 ==> !Numerals.IsSpace(r[0]) && !Numerals.IsSpace(r[|r| - 1])
  {
    Numerals.SkipSpacesShape(s);
    var t := Numerals.SkipSpaces(s);
    var r := TrimEnd(t);
    var k := |s| - |t|;
    assert s[k..k + |r|] == t[..|r|];
    forall i | k + |r| <= i < |s|
      ensures Numerals.IsSpace(s[i])
    {
      assert s[i] == t[i - k];
    }
    if |r| > 0 {
      assert r[0] == t[0];
    }
  }

  lemma TrimNoSpaces(s: string)
    requires NoSpaces(s)
    ensures Trim(s) == s
  {
  }

  // Pass 5: splitting

  /** `s.split(" ")`: the pieces between single spaces; never empty. */
  function Split(s: string): (r: seq<string>)
    ensures |r| > 0
    decreases |s|
  {
    if |s| == 0 then [""]
    else
      var rest := Split(s[1..]);
      if s[0] == ' ' then [""] + rest else [[s[0]] + rest[0]] + rest[1..]
  }

  function JoinWithSpace(ws: seq<string>): string
    requires |ws| > 0
  {
    if |ws| == 1 then ws[0] else ws[0] + " " + JoinWithSpace(ws[1..])
  }

  /** Splitting loses nothing: joining the pieces with a space gives the text back. */
  lemma {:induction false} SplitJoin(s: string)
    ensures JoinWithSpace(Split(s)) == s
    decreases |s|
  {
    if |s| > 0 {
      SplitJoin(s[1..]);
      var rest := Split(s[1..]);
      if s[0] == ' ' {
        assert ([""] + rest)[1..] == rest;
        assert JoinWithSpace([""] + rest) == "" + " " + JoinWithSpace(rest);
      } else {
        var w := [s[0]] + rest[0];
        var r := [w] + rest[1..];
        if |rest| == 1 {
          assert JoinWithSpace(r) == w;
        } else {
          assert r[1..] == rest[1..];
          assert JoinWithSpace(rest) == rest[0] + " " + JoinWithSpace(rest[1..]);
        }
        assert [s[0]] + s[1..] == s;
      }
    }
  }

  /** No piece holds a space. */
  lemma {:induction false} SplitPieces(s: string)
    ensures forall w, i :: w in Split(s) && 0 <= i < |w| ==> w[i] != ' '
    decreases |s|
  {
    if |s| > 0 {
      SplitPieces(s[1..]);
      var rest := Split(s[1..]);
      if s[0] != ' ' {
        var w := [s[0]] + rest[0];
        var r := [w] + rest[1..];
        forall v, i | v in r && 0 <= i < |v|
          ensures v[i] != ' '
        {
          if v == w && i > 0 {
            assert v[i] == rest[0][i - 1];
          }
        }
      }
    }
  }

  /** Text without spaces is one piece. */
  lemma {:induction false} SplitNoSpace(s: string)
    requires forall i :: 0 <= i < |s| ==> s[i] != ' '
    ensures Split(s) == [s]
    decreases |s|
  {
    if |s| > 0 {
      SplitNoSpace(s[1..]);
      assert [s[0]] + s[1..] == s;
    }
  }

  // The whole tokeniser

  function TokeniseWith(s: string, closeBracket: bool): (r: TokenResult)
    ensures r.tokens.Valid() && r.tokens.cursor == 0
  {
    var extracted := ExtractStrings(s, []);
    var text := Trim(CollapseSpaces(PadDelimiters(extracted.0, closeBracket)));
    TokenResult(extracted.1, Reader.NewRdr(Split(text)))
  }

  /** The tokeniser as written, which leaves `]` a token of its own. */
  function Tokenise(s: string): TokenResult
  {
    TokeniseWith(s, false)
  }

  /** With `]` read as `)`, square brackets tokenise exactly as parentheses on text
      without string literals. */
  lemma TokeniseBrackets(s: string)
    requires NoQuotes(s)
    ensures TokeniseWith(s, true) == TokeniseWith(BracketsAsParens(s), true)
  {
    BracketsKeepNoQuotes(s);
    ExtractStringsNoQuotes(s, []);
    ExtractStringsNoQuotes(BracketsAsParens(s), []);
    PadBrackets(s);
  }

  /** A word: text that tokenises to itself alone. */
  predicate Word(s: string)
  {
    |s| > 0 && NoQuotes(s) && NoDelimiters(s) && NoSpaces(s)
  }

  /** A word is one token, and adds nothing to the table, whichever way `]` is read. */
  lemma TokeniseWord(s: string, closeBracket: bool)
    requires Word(s)
    ensures TokeniseWith(s, closeBracket) == TokenResult([], Reader.NewRdr([s]))
  {
    ExtractStringsNoQuotes(s, []);
    PadNoDelimiters(s, closeBracket);
    CollapseNoSpaces(s);
    TrimNoSpaces(s);
    assert forall i :: 0 <= i < |s| ==> s[i] != ' ' by {
      assert Numerals.IsSpace(' ');
    }
    SplitNoSpace(s);
  }

  /** A lone literal becomes the one token `$0`, and its body, escapes left as they
      are, is the table's only entry, whichever way `]` is read. */
  lemma TokeniseLiteral(t: string, closeBracket: bool)
    requires LiteralBody(t)
    ensures TokeniseWith("\"" + t + "\"", closeBracket) == TokenResult([t], Reader.NewRdr(["$0"]))
  {
    ExtractStringsLiteral(t);
    TokeniseWordParts("$0", closeBracket);
  }

  lemma {:induction false} PlainIsLiteralBody(t: string)
    requires NoQuotes(t) && forall i :: 0 <= i < |t| ==> t[i] != '\\'
    ensures LiteralBody(t)
    decreases |t|
  {
    if |t| > 0 {
      PlainIsLiteralBody(t[1..]);
    }
  }

  /** Passes 2 to 5 leave text without delimiters or whitespace a single token. */
  lemma TokeniseWordParts(w: string, closeBracket: bool)
    requires |w| > 0 && NoDelimiters(w) && NoSpaces(w)
    ensures Split(Trim(CollapseSpaces(PadDelimiters(w, closeBracket)))) == [w]
  {
    PadNoDelimiters(w, closeBracket);
    CollapseNoSpaces(w);
    TrimNoSpaces(w);
    assert Numerals.IsSpace(' ');
    SplitNoSpace(w);
  }
}

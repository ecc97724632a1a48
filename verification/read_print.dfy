/** How the tokeniser, the reader and the printer fit together: the printed form of a
    number, a symbol or a simple string reads back as that value, and square brackets
    read as parentheses only once `]` is mapped to `)`. */
module ReadPrint {
  import opened Results
  import opened Values
  import Numerals
  import opened Reader
  import opened Tokeniser
  import Printer
  import ReaderLaws

  /** Tokenising and then reading from the first token. */
  function Read(tr: TokenResult): Result<(Value, Rdr)>
    requires tr.tokens.Valid()
  {
    Parse(tr.tokens, tr.strs)
  }

  /** The readable text of a number reads back as that number, whichever way `]` is
      tokenised. */
  lemma ReadPrintedNumber(n: int, closeBracket: bool)
    ensures var p := Printer.Show(Printer.Print(Num(n), true));
            Read(TokeniseWith(p, closeBracket)) == Ok((Num(n), Rdr([p], 1)))
  {
    var p := Numerals.IntToString(n);
    Numerals.IntToStringChars(n);
    Numerals.IntToStringFirst(n);
    assert Word(p) by {
      forall i | 0 <= i < |p|
        ensures p[i] != '"' && !IsDelimiter(p[i]) && !Numerals.IsSpace(p[i])
      {
        if Numerals.IsDigit(p[i]) {
          Numerals.DigitIsNotSpace(p[i]);
        }
      }
    }
    TokeniseWord(p, closeBracket);
    ParseAtomToken([p], 0, []);
    Numerals.LeadingIntegerOfIntToString(n);
  }

  /** The text of a symbol that is a word and not a number reads back as that symbol. */
  lemma ReadPrintedSymbol(s: string, closeBracket: bool)
    requires Word(s) && ReaderLaws.PlainSymbol(s)
    ensures var p := Printer.Show(Printer.Print(Text(s), true));
            Read(TokeniseWith(p, closeBracket)) == Ok((Text(s), Rdr([s], 1)))
  {
    TokeniseWord(s, closeBracket);
    ParseAtomToken([s], 0, []);
  }

  /** A string free of quotes, backslashes and control characters prints readably, under
      either escape, as a literal that reads back as that string. */
  lemma ReadPrintedString(t: string, closeBracket: bool, doubleBackslash: bool)
    requires NoQuotes(t)
    requires forall i :: 0 <= i < |t| ==> t[i] != '\\' && t[i] != '\r' && t[i] != '\n' && t[i] != '\t'
    ensures var p := Printer.Show(Printer.PrintWith(Text("$" + t), true, doubleBackslash));
            Read(TokeniseWith(p, closeBracket)) == Ok((Text("$" + t), Rdr(["$0"], 1)))
  {
    var v := Text("$" + t);
    var p := "\"" + t + "\"";
    assert Printer.Show(Printer.PrintWith(v, true, doubleBackslash)) == p by {
      assert v.s[1..] == t;
      Printer.EscapePlain(t, doubleBackslash);
    }
    PlainIsLiteralBody(t);
    ReadLiteral(t, closeBracket);
  }

  /** A lone literal reads as the string of its body exactly as written between the
      quotes: the reader undoes no escape. */
  lemma ReadLiteral(t: string, closeBracket: bool)
    requires LiteralBody(t)
    ensures Read(TokeniseWith("\"" + t + "\"", closeBracket)) == Ok((Text("$" + t), Rdr(["$0"], 1)))
  {
    TokeniseLiteral(t, closeBracket);
    PlaceholderZero();
    ParsePlaceholder(["$0"], 0, [t], 0);
  }

  lemma PlaceholderZero()
    ensures "$0" == "$" + Numerals.NatToString(0)
  {
  }

  /** The escape of a quote-free string is a literal body, provided a backslash is
      doubled or there is none. */
  lemma {:induction false} EscapedIsLiteralBody(t: string, doubleBackslash: bool)
    requires NoQuotes(t) && (!doubleBackslash ==> forall i :: 0 <= i < |t| ==> t[i] != '\\')
    ensures LiteralBody(Printer.EscapeWith(t, doubleBackslash))
    decreases |t|
  {
    if |t| > 0 {
      EscapedIsLiteralBody(t[1..], doubleBackslash);
      var head := Printer.EscapeChar(t[0], doubleBackslash);
      assert LiteralBody(head) by {
        if |head| == 2 {
          assert head[0] == '\\' && !IsLineTerminator(head[1]) && head[2..] == "";
        } else {
          assert head == [t[0]] && t[0] != '"' && t[0] != '\\' && head[1..] == "";
        }
      }
      LiteralBodyConcat(head, Printer.EscapeWith(t[1..], doubleBackslash));
    }
  }

  /** A quote-free string printed readably reads back as its escaped form, since the
      reader undoes no escape; as written, this holds for strings without backslashes. */
  lemma ReadPrintedStringEscaped(t: string, closeBracket: bool, doubleBackslash: bool)
    requires NoQuotes(t) && (!doubleBackslash ==> forall i :: 0 <= i < |t| ==> t[i] != '\\')
    ensures var p := Printer.Show(Printer.PrintWith(Text("$" + t), true, doubleBackslash));
            Read(TokeniseWith(p, closeBracket))
            == Ok((Text("$" + Printer.EscapeWith(t, doubleBackslash)), Rdr(["$0"], 1)))
  {
    assert Text("$" + t).s[1..] == t;
    EscapedIsLiteralBody(t, doubleBackslash);
    ReadLiteral(Printer.EscapeWith(t, doubleBackslash), closeBracket);
  }

  /** So a quote-free string reads back as itself exactly when it has no character the
      escape rewrites: a CR, LF or TAB, or a backslash when it is doubled. */
  lemma ReadPrintedStringBack(t: string, closeBracket: bool, doubleBackslash: bool)
    requires NoQuotes(t) && (!doubleBackslash ==> forall i :: 0 <= i < |t| ==> t[i] != '\\')
    ensures var p := Printer.Show(Printer.PrintWith(Text("$" + t), true, doubleBackslash));
            Read(TokeniseWith(p, closeBracket)) == Ok((Text("$" + t), Rdr(["$0"], 1)))
            <==> forall i :: 0 <= i < |t| ==> !Printer.Escaped(t[i], doubleBackslash)
  {
    ReadPrintedStringEscaped(t, closeBracket, doubleBackslash);
    Printer.EscapeUnchanged(t, doubleBackslash);
    var e := Printer.EscapeWith(t, doubleBackslash);
    if Text("$" + e) == Text("$" + t) {
      assert e == ("$" + e)[1..] == ("$" + t)[1..] == t;
    }
  }

  /** A quote is printed unescaped, so a lone quote prints readably as three quotes; the
      first two close an empty literal, and the text reads back as the empty string. */
  lemma PrintedQuoteReadsEmpty(closeBracket: bool, doubleBackslash: bool)
    ensures Printer.Show(Printer.PrintWith(Text("$\""), true, doubleBackslash)) == "\"\"\""
    ensures Read(TokeniseWith("\"\"\"", closeBracket)) == Ok((Text("$"), Rdr(["$0\""], 1)))
  {
    PrintQuote(doubleBackslash);
    QuoteTokens(closeBracket);
    ParseQuoteToken();
  }

  lemma PrintQuote(doubleBackslash: bool)
    ensures Printer.Show(Printer.PrintWith(Text("$\""), true, doubleBackslash)) == "\"\"\""
  {
    assert Text("$\"").s[1..] == "\"";
    assert Printer.EscapeWith("\"", doubleBackslash) == "\"" + Printer.EscapeWith("", doubleBackslash);
    assert "\"" + "\"" + "\"" == "\"\"\"";
  }

  lemma ParseQuoteToken()
    ensures Parse(Reader.NewRdr(["$0\""]), [""]) == Ok((Text("$"), Rdr(["$0\""], 1)))
  {
    var w: string := "$0\"";
    ParseAtomToken([w], 0, [""]);
    assert Atom(w, [""]) == Text("$") by {
      assert w[1..] == "0\"";
      ZeroThenQuote();
    }
  }

  /** Three quotes tokenise to the token `$0"`, with the empty string as entry 0. */
  lemma QuoteTokens(closeBracket: bool)
    ensures TokeniseWith("\"\"\"", closeBracket) == TokenResult([""], Reader.NewRdr(["$0\""]))
  {
    var w: string := "$0\"";
    ExtractThreeQuotes();
    assert Split(Trim(CollapseSpaces(PadDelimiters(w, closeBracket)))) == [w] by {
      assert !Numerals.IsSpace('$') && !Numerals.IsSpace('0') && !Numerals.IsSpace('"');
      TokeniseWordParts(w, closeBracket);
    }
  }

  lemma ExtractThreeQuotes()
    ensures ExtractStrings("\"\"\"", []) == ("$0\"", [""])
  {
    var q: string := "\"\"\"";
    ExtractLoneQuote();
    assert ClosingQuote(q, 1) == Some(1);
    assert q[1..1] == "" && q[2..] == "\"";
    assert [] + [q[1..1]] == [""];
    ExtractStringsStep("", q, []);
    assert "" + "$" + Numerals.NatToString(0) + "\"" == "$0\"";
  }

  lemma ExtractLoneQuote()
    ensures ExtractStrings("\"", [""]) == ("\"", [""])
  {
    var q: string := "\"";
    assert ClosingQuote(q, 1).None?;
    assert q[1..] == "";
    ExtractStringsStep("", q, [""]);
    assert "" + "\"" + "" == "\"";
  }

  lemma ZeroThenQuote()
    ensures Numerals.LeadingInteger("0\"") == Some(0)
  {
    var s := "0\"";
    assert Numerals.SkipSpaces(s) == s by {
      assert !Numerals.IsSpace(s[0]);
    }
    assert Numerals.DigitPrefix(s) == "0" by {
      assert s[1..] == "\"" && Numerals.DigitPrefix("\"") == "";
    }
    assert Numerals.DigitsValue("0") == 0;
  }

  /** The tokeniser as written leaves `]` a symbol of its own, so `[a]` finds no closing
      parenthesis; with `]` mapped to `)` it reads as the list `(a)`. */
  lemma SquareBracketsAsWritten()
    ensures Tokenise("[a]").tokens.ix == ["(", "a", "]"]
    ensures Read(Tokenise("[a]")) == Err(ExpectedCloseParen)
    ensures TokeniseWith("[a]", true).tokens.ix == ["(", "a", ")"]
    ensures Read(TokeniseWith("[a]", true)) == Ok((ListOf([Text("a")]), Rdr(["(", "a", ")"], 3)))
  {
    ExtractStringsNoQuotes("[a]", []);
    BracketedTokens(false, ']');
    BracketedTokens(true, ')');
    var strs: seq<string> := [];
    ReadBracketsAsWritten(strs);
    ReadBracketsMapped(strs);
  }

  /** The tokens of `[a]`, whose `]` is padded as `close`. */
  lemma BracketedTokens(closeBracket: bool, close: char)
    requires close == if closeBracket then ')' else ']'
    ensures Split(Trim(CollapseSpaces(PadDelimiters("[a]", closeBracket)))) == ["(", "a", [close]]
  {
    var inner: string := ['(', ' ', 'a', ' ', close];
    var padded: string := [' '] + inner + [' '];
    assert PadDelimiters("[a]", closeBracket) == padded by {
      PadBracketed(closeBracket, close);
    }
    assert CollapseSpaces(padded) == padded by {
      assert Numerals.IsSpace(' ') && !Numerals.IsSpace('(') && !Numerals.IsSpace('a');
      assert !Numerals.IsSpace(close);
      assert NoRuns(padded);
      CollapseRunFree(padded);
    }
    assert Trim(padded) == inner by {
      TrimPadded(inner);
    }
    SplitBracketed(inner, close);
  }

  lemma PadBracketed(closeBracket: bool, close: char)
    requires close == if closeBracket then ')' else ']'
    ensures PadDelimiters("[a]", closeBracket) == [' ', '(', ' ', 'a', ' ', close, ' ']
  {
    var s: string := "[a]";
    assert s[1..] == "a]" && s[1..][1..] == "]" && s[1..][1..][1..] == "";
    assert PadDelimiters("]", closeBracket) == [' ', close, ' '];
    assert PadDelimiters("a]", closeBracket) == ['a', ' ', close, ' '];
  }

  lemma SplitBracketed(inner: string, close: char)
    requires inner == ['(', ' ', 'a', ' ', close] && close != ' '
    ensures Split(inner) == ["(", "a", [close]]
  {
    SplitWord("(", ['a', ' ', close]);
    SplitWord("a", [close]);
    SplitNoSpace([close]);
    assert inner == "(" + [' '] + ['a', ' ', close];
    assert ['a', ' ', close] == "a" + [' '] + [close];
  }

  /** Text with no two neighbouring whitespace characters is left as it is by pass 3. */
  lemma {:induction false} CollapseRunFree(s: string)
    requires NoRuns(s)
    ensures CollapseSpaces(s) == s
    decreases |s|
  {
    if |s| > 0 {
      if |s| >= 2 {
        assert !(Numerals.IsSpace(s[0]) && Numerals.IsSpace(s[1]));
      }
      assert NoRuns(s[1..]) by {
        forall i | 0 < i < |s[1..]|
          ensures !(Numerals.IsSpace(s[1..][i - 1]) && Numerals.IsSpace(s[1..][i]))
        {
          assert s[1..][i - 1] == s[i] && s[1..][i] == s[i + 1];
        }
      }
      CollapseRunFree(s[1..]);
      assert [s[0]] + s[1..] == s;
    }
  }

  /** Trimming one space from each side of text that neither starts nor ends with
      whitespace. */
  lemma TrimPadded(x: string)
    requires |x| > 0 && !Numerals.IsSpace(x[0]) && !Numerals.IsSpace(x[|x| - 1])
    ensures Trim([' '] + x + [' ']) == x
  {
    var s := [' '] + x + [' '];
    assert Numerals.IsSpace(' ');
    assert s[1..] == x + [' '];
    assert (x + [' '])[0] == x[0];
    assert Numerals.SkipSpaces(x + [' ']) == x + [' '];
    assert Numerals.SkipSpaces(s) == x + [' '];
    assert (x + [' '])[..|x|] == x;
  }

  /** A word followed by a space is split off as the first piece. */
  lemma {:induction false} SplitWord(w: string, rest: string)
    requires forall i :: 0 <= i < |w| ==> w[i] != ' '
    ensures Split(w + [' '] + rest) == [w] + Split(rest)
    decreases |w|
  {
    if |w| == 0 {
      assert w + [' '] + rest == [' '] + rest;
      assert ([' '] + rest)[1..] == rest;
    } else {
      SplitWord(w[1..], rest);
      var s := w + [' '] + rest;
      assert s[0] == w[0] && s[1..] == w[1..] + [' '] + rest;
      assert [w[0]] + w[1..] == w;
    }
  }

  lemma ReadBracketsAsWritten(strs: seq<string>)
    requires strs == []
    ensures Parse(NewRdr(["(", "a", "]"]), strs) == Err(ExpectedCloseParen)
  {
    var ix := ["(", "a", "]"];
    ParseAtOpen(ix, 0, strs);
    ParseListAtElement(ix, 1, strs, false);
    ParseAtomToken(ix, 1, strs);
    assert Atom("a", strs) == Text("a");
    ParseListAtElement(ix, 2, strs, true);
    ParseAtomToken(ix, 2, strs);
    assert Atom("]", strs) == Text("]");
    ParseListAtEnd(ix, 3, strs, true);
  }

  lemma ReadBracketsMapped(strs: seq<string>)
    requires strs == []
    ensures Parse(NewRdr(["(", "a", ")"]), strs) == Ok((ListOf([Text("a")]), Rdr(["(", "a", ")"], 3)))
  {
    var ix := ["(", "a", ")"];
    ParseAtOpen(ix, 0, strs);
    ParseAtomToken(ix, 1, strs);
    assert Atom("a", strs) == Text("a");
    ParseListAtClose(ix, 2, strs, true);
    ParseListElementThenRest(ix, 1, 2, 3, strs, false, Text("a"), NilV);
    assert ListOf([Text("a")]) == Pair(Text("a"), NilV);
  }
}

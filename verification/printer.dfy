/** The printer `print(e, readably)`.

    A number prints as its decimal text, a symbol as its name, a string without its `$`
    mark, raw or, when `readably` is set, in double quotes with its control characters
    escaped. A pair prints as a parenthesised list; its elements are printed with
    `readably` unset, and only a dotted tail is printed readably. The host function has
    no case for `false` and `undefined` and returns undefined for them. */
module Printer {
  import opened Results
  import opened Values
  import Numerals

  // String escapes

  /** The readable form of one character of a string: CR, LF and TAB become `\r`, `\n`
      and `\t`. When `doubleBackslash` is set a backslash is doubled; the replacement
      as written puts back the single backslash it matched. */
  function EscapeChar(c: char, doubleBackslash: bool): string
  {
    if c == '\\' then (if doubleBackslash then "\\\\" else "\\")
    else if c == '\r' then "\\r"
    else if c == '\n' then "\\n"
    else if c == '\t' then "\\t"
    else [c]
  }

  function EscapeWith(s: string, doubleBackslash: bool): string
  {
    if |s| == 0 then "" else EscapeChar(s[0], doubleBackslash) + EscapeWith(s[1..], doubleBackslash)
  }

  /** Undoes the escape with the backslash doubled: a backslash and the character after
      it stand for one character. */
  function Unescape(s: string): string
  {
    if |s| >= 2 && s[0] == '\\' then
      var c := if s[1] == 'r' then '\r' else if s[1] == 'n' then '\n'
               else if s[1] == 't' then '\t' else s[1];
      [c] + Unescape(s[2..])
    else if |s| == 0 then ""
    else [s[0]] + Unescape(s[1..])
  }

  /** With the backslash doubled, every string is recovered from its escaped form. */
  lemma {:induction false} UnescapeEscape(s: string)
    ensures Unescape(EscapeWith(s, true)) == s
    decreases |s|
  {
    if |s| > 0 {
      var c := s[0];
      var head := EscapeChar(c, true);
      var tail := EscapeWith(s[1..], true);
      assert EscapeWith(s, true) == head + tail;
      UnescapeEscape(s[1..]);
      if c == '\\' || c == '\r' || c == '\n' || c == '\t' {
        assert (head + tail)[2..] == tail;
      } else {
        assert head == [c];
        assert (head + tail)[1..] == tail;
      }
    }
  }

  /** With the backslash doubled, distinct strings have distinct escaped forms. */
  lemma EscapeInjective(s: string, t: string)
    requires EscapeWith(s, true) == EscapeWith(t, true)
    ensures s == t
  {
    UnescapeEscape(s);
    UnescapeEscape(t);
  }

  /** Text without CR, LF or TAB. */
  predicate NoControls(s: string)
  {
    forall i :: 0 <= i < |s| ==> s[i] != '\r' && s[i] != '\n' && s[i] != '\t'
  }

  lemma NoControlsConcat(a: string, b: string)
    requires NoControls(a) && NoControls(b)
    ensures NoControls(a + b)
  {
    forall i | 0 <= i < |a + b|
      ensures (a + b)[i] != '\r' && (a + b)[i] != '\n' && (a + b)[i] != '\t'
    {
      if i >= |a| {
        assert (a + b)[i] == b[i - |a|];
      } else {
        assert (a + b)[i] == a[i];
      }
    }
  }

  /** The escaped form holds no CR, LF or TAB, under either escape. */
  lemma {:induction false} EscapeHasNoControls(s: string, doubleBackslash: bool)
    ensures NoControls(EscapeWith(s, doubleBackslash))
    decreases |s|
  {
    if |s| > 0 {
      EscapeHasNoControls(s[1..], doubleBackslash);
      var head := EscapeChar(s[0], doubleBackslash);
      assert NoControls(head) by {
        var c := s[0];
        if c == '\\' || c == '\r' || c == '\n' || c == '\t' {
          assert head[0] == '\\';
        }
      }
      NoControlsConcat(head, EscapeWith(s[1..], doubleBackslash));
    }
  }

  /** A character the escape rewrites: CR, LF, TAB, and a backslash when it is doubled. */
  predicate Escaped(c: char, doubleBackslash: bool)
  {
    c == '\r' || c == '\n' || c == '\t' || (doubleBackslash && c == '\\')
  }

  /** The escape leaves a string as it is exactly when no character of it is rewritten. */
  lemma {:induction false} EscapeUnchanged(s: string, doubleBackslash: bool)
    ensures EscapeWith(s, doubleBackslash) == s
            <==> forall i :: 0 <= i < |s| ==> !Escaped(s[i], doubleBackslash)
    ensures |EscapeWith(s, doubleBackslash)| >= |s|
    decreases |s|
  {
    if |s| > 0 {
      EscapeUnchanged(s[1..], doubleBackslash);
      var head := EscapeChar(s[0], doubleBackslash);
      var tail := EscapeWith(s[1..], doubleBackslash);
      assert EscapeWith(s, doubleBackslash) == head + tail;
      if Escaped(s[0], doubleBackslash) {
        assert |head| == 2;
      } else {
        assert head == [s[0]];
        assert [s[0]] + s[1..] == s;
        if head + tail == s {
          assert tail == (head + tail)[1..];
        }
        if forall i :: 0 <= i < |s| ==> !Escaped(s[i], doubleBackslash) {
          assert forall i :: 0 <= i < |s[1..]| ==> s[1..][i] == s[i + 1];
        } else {
          var i :| 0 <= i < |s| && Escaped(s[i], doubleBackslash);
          assert s[1..][i - 1] == s[i];
        }
      }
    }
  }

  /** A string free of backslashes and control characters is its own escaped form,
      under either escape. */
  lemma {:induction false} EscapePlain(s: string, doubleBackslash: bool)
    requires forall i :: 0 <= i < |s| ==> s[i] != '\\' && s[i] != '\r' && s[i] != '\n' && s[i] != '\t'
    ensures EscapeWith(s, doubleBackslash) == s
    decreases |s|
  {
    if |s| > 0 {
      EscapePlain(s[1..], doubleBackslash);
      assert [s[0]] + s[1..] == s;
    }
  }

  /** The escape as written loses the backslash: a backslash followed by `n` and a
      newline print alike. */
  lemma EscapeAsWrittenCollides()
    ensures "\\n" != "\n" && EscapeWith("\\n", false) == EscapeWith("\n", false)
  {
    assert EscapeWith("\\n", false) == "\\" + EscapeWith("n", false);
    assert EscapeWith("n", false) == "n";
  }

  // Printing

  /** The text the host makes of a printed part: undefined reads as "undefined". */
  function Show(o: Option<string>): string
  {
    match o
    case None => "undefined"
    case Some(s) => s
  }

  /** `print(e, readably)`, with the escape of readable strings chosen by
      `doubleBackslash`; `None` is the host's undefined. A readable string is its text in
      quotes, with CR, LF and TAB written as escapes; with the backslash doubled, its
      text is recovered by unescaping the inside. */
  function PrintWith(e: Value, readably: bool, doubleBackslash: bool): (r: Option<string>)
    ensures r.None? <==> e.False? || e.Undefined?
    ensures e.Num? ==> r == Some(Numerals.IntToString(e.n))
    ensures SymbolP(e) ==> r == Some(e.s)
    ensures IsStringValue(e) && !readably ==> r == Some(e.s[1..])
    ensures IsStringValue(e) && readably ==>
              r == Some("\"" + EscapeWith(e.s[1..], doubleBackslash) + "\"")
              && NoControls(r.value)
              && (doubleBackslash ==> Unescape(r.value[1..|r.value| - 1]) == e.s[1..])
    ensures e.Pair? ==> r.Some? && |r.value| >= 2 && r.value[0] == '(' && r.value[|r.value| - 1] == ')'
    decreases e, 1
  {
    match e
    case Num(n) => Some(Numerals.IntToString(n))
    case Text(s) =>
      if IsStringValue(e) then
        if readably then
          var body := EscapeWith(s[1..], doubleBackslash);
          var out := "\"" + body + "\"";
          assert out[1..|out| - 1] == body;
          UnescapeEscape(s[1..]);
          EscapeHasNoControls(s[1..], doubleBackslash);
          NoControlsConcat("\"", body);
          NoControlsConcat("\"" + body, "\"");
          Some(out)
        else Some(s[1..])
      else Some(s)
    case Pair(_, _) =>
      var out := "(" + PrintCells(e, doubleBackslash) + ")";
      Some(out)
    case False => None
    case Undefined => None
  }

  /** `print` as written, whose escape leaves a backslash single. */
  function Print(e: Value, readably: bool): Option<string>
  {
    PrintWith(e, readably, false)
  }

  /** As written, the text backslash-`n` and a line feed print readably alike. */
  lemma PrintAsWrittenCollides()
    ensures Text("$\\n") != Text("$\n")
    ensures Print(Text("$\\n"), true) == Print(Text("$\n"), true) == Some("\"\\n\"")
  {
    EscapeAsWrittenCollides();
    assert Text("$\\n").s[1..] == "\\n";
    assert Text("$\n").s[1..] == "\n";
    assert EscapeWith("\n", false) == "\\n" + EscapeWith("", false);
    assert EscapeWith("\\n", false) == "\\n";
    assert "\"" + "\\n" + "\"" == "\"\\n\"";
    assert Print(Text("$\n"), true) == Some("\"" + EscapeWith("\n", false) + "\"");
  }

  /** With the backslash doubled, distinct strings print readably as distinct texts. */
  lemma PrintCorrectedInjective(u: Value, v: Value)
    requires IsStringValue(u) && IsStringValue(v)
    requires PrintWith(u, true, true) == PrintWith(v, true, true)
    ensures u == v
  {
    var pu, pv := PrintWith(u, true, true).value, PrintWith(v, true, true).value;
    assert Unescape(pu[1..|pu| - 1]) == u.s[1..];
    assert u.s == "$" + u.s[1..] && v.s == "$" + v.s[1..];
  }

  /** The loop of the pair case, from the pair `e` on, without the parentheses: each
      element printed with `readably` unset and followed by a space, and `. tail` when
      the cdr is neither nil nor a pair; the final space is dropped. */
  function PrintCells(e: Value, doubleBackslash: bool): string
    requires e.Pair?
    decreases e, 0
  {
    var head := Show(PrintWith(e.car, false, doubleBackslash));
    if !ListP(e.cdr) then head + " . " + Show(PrintWith(e.cdr, true, doubleBackslash))
    else if NullP(e.cdr) then head
    else head + " " + PrintCells(e.cdr, doubleBackslash)
  }

  /** The printed elements of a chain, each printed with `readably` unset. */
  function ElementTexts(xs: seq<Value>, doubleBackslash: bool): seq<string>
  {
    if |xs| == 0 then []
    else [Show(PrintWith(xs[0], false, doubleBackslash))] + ElementTexts(xs[1..], doubleBackslash)
  }

  function JoinSpaced(ws: seq<string>): string
  {
    if |ws| == 0 then "" else if |ws| == 1 then ws[0] else ws[0] + " " + JoinSpaced(ws[1..])
  }

  /** What follows the elements: nothing for a proper list, ` . tail` otherwise. */
  function TailText(t: Value, doubleBackslash: bool): string
  {
    if t == NilV then "" else " . " + Show(PrintWith(t, true, doubleBackslash))
  }

  /** A pair prints as its elements, separated by spaces, then ` . tail` when its last cdr
      is not nil, all in parentheses; readability does not matter for a pair. */
  lemma PrintPair(e: Value, readably: bool, doubleBackslash: bool)
    requires e.Pair?
    ensures PrintWith(e, readably, doubleBackslash)
            == Some("(" + JoinSpaced(ElementTexts(Elements(e), doubleBackslash))
                    + TailText(Terminal(e), doubleBackslash) + ")")
  {
    PrintCellsShape(e, doubleBackslash);
    var j, t := JoinSpaced(ElementTexts(Elements(e), doubleBackslash)), TailText(Terminal(e), doubleBackslash);
    assert "(" + (j + t) + ")" == "(" + j + t + ")";
    assert PrintWith(e, readably, doubleBackslash) == Some("(" + PrintCells(e, doubleBackslash) + ")");
  }

  lemma {:induction false} PrintCellsShape(e: Value, doubleBackslash: bool)
    requires e.Pair?
    ensures PrintCells(e, doubleBackslash)
            == JoinSpaced(ElementTexts(Elements(e), doubleBackslash)) + TailText(Terminal(e), doubleBackslash)
    decreases e
  {
    if e.cdr.Pair? {
      PrintCellsShape(e.cdr, doubleBackslash);
      PrintCellsMore(e, doubleBackslash);
    } else {
      PrintCellsLast(e, doubleBackslash);
    }
  }

  /** The last cell: its element, then ` . tail` unless the cdr is nil. */
  lemma PrintCellsLast(e: Value, doubleBackslash: bool)
    requires e.Pair? && !e.cdr.Pair?
    ensures PrintCells(e, doubleBackslash)
            == JoinSpaced(ElementTexts(Elements(e), doubleBackslash)) + TailText(Terminal(e), doubleBackslash)
  {
    assert Elements(e) == [e.car] by {
      assert Elements(e.cdr) == [];
    }
    assert Terminal(e) == e.cdr;
  }

  /** A cell followed by more cells: its element and a space in front of theirs. */
  lemma PrintCellsMore(e: Value, doubleBackslash: bool)
    requires e.Pair? && e.cdr.Pair?
    requires PrintCells(e.cdr, doubleBackslash)
             == JoinSpaced(ElementTexts(Elements(e.cdr), doubleBackslash)) + TailText(Terminal(e.cdr), doubleBackslash)
    ensures PrintCells(e, doubleBackslash)
            == JoinSpaced(ElementTexts(Elements(e), doubleBackslash)) + TailText(Terminal(e), doubleBackslash)
  {
    var head := Show(PrintWith(e.car, false, doubleBackslash));
    var texts := ElementTexts(Elements(e.cdr), doubleBackslash);
    ElementTextsCons(e.car, Elements(e.cdr), doubleBackslash);
    assert |Elements(e.cdr)| > 0;
    JoinSpacedCons(head, texts, TailText(Terminal(e.cdr), doubleBackslash));
    assert Terminal(e) == Terminal(e.cdr);
  }

  lemma ElementTextsCons(x: Value, rest: seq<Value>, doubleBackslash: bool)
    ensures ElementTexts([x] + rest, doubleBackslash)
            == [Show(PrintWith(x, false, doubleBackslash))] + ElementTexts(rest, doubleBackslash)
  {
    assert ([x] + rest)[1..] == rest;
  }

  lemma JoinSpacedCons(head: string, texts: seq<string>, tail: string)
    requires |texts| > 0
    ensures JoinSpaced([head] + texts) + tail == head + " " + (JoinSpaced(texts) + tail)
  {
    assert ([head] + texts)[1..] == texts;
  }

  /** A proper list prints as its elements, separated by spaces, in parentheses. */
  lemma PrintList(xs: seq<Value>, readably: bool, doubleBackslash: bool)
    requires |xs| > 0
    ensures PrintWith(ListOf(xs), readably, doubleBackslash)
            == Some("(" + JoinSpaced(ElementTexts(xs, doubleBackslash)) + ")")
  {
    ChainParts(xs, NilV);
    var l := ListOf(xs);
    assert l.Pair?;
    PrintPair(l, readably, doubleBackslash);
    assert TailText(Terminal(l), doubleBackslash) == "";
    var j := JoinSpaced(ElementTexts(xs, doubleBackslash));
    assert "(" + j + "" + ")" == "(" + j + ")";
  }
}

/** What patterns print, said of the patterns themselves: directive by directive, for names that are not in
    the table, and for the default pattern. */
module LogPatternMeaning {
  import opened Wrappers
  import opened LogPattern
  import opened LogPatternLaws
  import opened LogPatternPrinting
  import opened LogFormatters

  /** A pattern that prints a normal list of tokens prints the texts of its tokens in order. */
  lemma {:induction false} PrintedTokens(ts: seq<Token>, level: LogLevel, event: Event)
    requires Normal(ts)
    ensures Printed(Print(ts), level, event) == RenderTokens(ts, level, event)
    ensures !HasError(Print(ts))
  {
    hide Normal, Print, Tokens;
    PrintParse(ts);
  }

  lemma {:induction false} OneDirective(name: string, level: LogLevel, event: Event)
    requires KnownName(name)
    ensures Printed("%" + name, level, event) == Render(ItemOf(Format(name, "")), level, event)
    ensures !HasError("%" + name)
  {
    var ts := [Format(name, "")];
    assert ts[1..] == [];
    assert Normal(ts);
    assert Print(ts) == "%" + name;
    PrintedTokens(ts, level, event);
    RenderOne(ts[0], level, event);
  }

  /** Every directive prints its own field of the event, the level, or white space. */
  lemma {:induction false} DirectivesPrint(level: LogLevel, event: Event)
    ensures Printed("%m", level, event) == event.content
    ensures Printed("%r", level, event) == event.elapse
    ensures Printed("%t", level, event) == event.threadId
    ensures Printed("%f", level, event) == event.file
    ensures Printed("%l", level, event) == event.line
    ensures Printed("%n", level, event) == "\n"
    ensures Printed("%T", level, event) == "\t"
    ensures Printed("%d", level, event) == event.date("%Y-%m-%d %H:%M:%S")
  {
    hide Printed;
    OneDirective("m", level, event);
    OneDirective("r", level, event);
    OneDirective("t", level, event);
    OneDirective("f", level, event);
    OneDirective("l", level, event);
    OneDirective("n", level, event);
    OneDirective("T", level, event);
    OneDirective("d", level, event);
    assert "%" + "m" == "%m" && "%" + "r" == "%r" && "%" + "t" == "%t" && "%" + "f" == "%f";
    assert "%" + "l" == "%l" && "%" + "n" == "%n" && "%" + "T" == "%T" && "%" + "d" == "%d";
  }

  /** The levels print by name, from the lowest to the highest. */
  lemma {:induction false} LevelsPrint(event: Event)
    ensures Printed("%p", ALL, event) == "ALL" && Printed("%p", 0, event) == "ALL"
    ensures Printed("%p", 1, event) == "DEBUG"
    ensures Printed("%p", INFO, event) == "INFO" && Printed("%p", 2, event) == "INFO"
    ensures Printed("%p", 3, event) == "WARN"
    ensures Printed("%p", 4, event) == "ERROR"
    ensures Printed("%p", 5, event) == "FATAL"
    ensures Printed("%p", OFF, event) == "OFF" && Printed("%p", 6, event) == "OFF"
  {
    hide Printed;
    assert "%" + "p" == "%p";
    forall level: LogLevel ensures Printed("%p", level, event) == LevelName(level) {
      OneDirective("p", level, event);
    }
  }

  lemma TableHasNames(name: string)
    ensures KnownName(name) <==> |name| == 1 && name[0] in "mprtndflT"
  {
  }

  lemma {:induction false} BracedPieces(run: string, a: string)
    requires IsRun(run) && '}' !in a
    ensures Pieces("%" + run + "{" + a + "}") == [Directive(run, run, Some(a))]
  {
    hide Pieces;
    ReadsBraced(run, a, "");
    assert "%" + run + "{" + a + "}" + "" == "%" + run + "{" + a + "}";
    NothingToRead();
  }

  lemma {:induction false} OnePieceTokens(p: string, piece: Piece)
    requires Pieces(p) == [piece] && piece.Directive?
    ensures TokensOf(p) == [Format(piece.name, ArgText(piece.arg))]
    ensures HasError(p) <==> !KnownName(piece.name)
  {
    hide Pieces, KnownName;
    TokensCons(piece, [], "");
    assert [piece] + [] == [piece];
    assert Pieces(p)[0] == piece;
  }

  /** A braced directive, for every name and every argument. The name is an error exactly if it is not one
      of the nine, and then it is printed as such; the date takes the argument for its format, the empty one
      for the default, and the other directives print the same as without an argument. */
  lemma {:induction false} BracedPrints(run: string, a: string, level: LogLevel, event: Event)
    requires IsRun(run) && '}' !in a
    ensures var p := "%" + run + "{" + a + "}";
            && (HasError(p) <==> |run| != 1 || run[0] !in "mprtndflT")
            && Printed(p, level, event)
               == if HasError(p) then "<<error_format %" + run + ">>"
                  else if run == "d" && a != "" then event.date(a)
                  else Printed("%" + run, level, event)
  {
    hide Printed, HasError, KnownName, ItemOf, Render, Pieces;
    var p := "%" + run + "{" + a + "}";
    BracedPieces(run, a);
    OnePieceTokens(p, Directive(run, run, Some(a)));
    TableHasNames(run);
    PrintsItem(p, Format(run, a), level, event);
    if KnownName(run) {
      OneDirective(run, level, event);
      SameItem(run, a, level, event);
    } else {
      UnknownItem(run, a, level, event);
    }
  }

  lemma {:induction false} PrintsItem(p: string, t: Token, level: LogLevel, event: Event)
    requires TokensOf(p) == [t]
    ensures Printed(p, level, event) == Render(ItemOf(t), level, event)
  {
    RenderOne(t, level, event);
  }

  lemma SameItem(name: string, a: string, level: LogLevel, event: Event)
    requires KnownName(name)
    ensures Render(ItemOf(Format(name, a)), level, event)
            == if name == "d" && a != "" then event.date(a) else Render(ItemOf(Format(name, "")), level, event)
  {
  }

  lemma UnknownItem(name: string, a: string, level: LogLevel, event: Event)
    requires !KnownName(name)
    ensures Render(ItemOf(Format(name, a)), level, event) == "<<error_format %" + name + ">>"
  {
  }

  /** The characters that do not end a name: letters, and a closing brace. */
  lemma RunChars(c: char)
    ensures IsRunChar(c) <==> c in "abcdefghijklmnopqrstuvwxyz" || c in "ABCDEFGHIJKLMNOPQRSTUVWXYZ" || c == '}'
  {
    Letters(c);
  }

  /** A bare directive that ends the pattern, for every run of letters: it stands for its last letter. */
  lemma {:induction false} BareAtEndPrints(run: string, c: char, level: LogLevel, event: Event)
    requires IsRun(run + [c])
    ensures Printed("%" + run + [c], level, event) == Printed("%" + [c], level, event)
    ensures HasError("%" + run + [c]) <==> c !in "mprtndflT"
    ensures c !in "mprtndflT" ==> Printed("%" + [c], level, event) == "<<error_format %" + [c] + ">>"
  {
    hide Printed, Pieces;
    BareAtEnd(run + [c]);
    assert "%" + (run + [c]) == "%" + run + [c];
    assert (run + [c])[|run|] == c;
    assert IsRun([c]);
    BareAtEnd([c]);
    OnePieceTokens("%" + run + [c], Directive(run + [c], [c], None));
    OnePieceTokens("%" + [c], Directive([c], [c], None));
    TableHasNames([c]);
    PrintsItem("%" + run + [c], Format([c], ""), level, event);
    PrintsItem("%" + [c], Format([c], ""), level, event);
  }

  lemma {:induction false} BareAtEnd(run: string)
    requires IsRun(run) && run != ""
    ensures Pieces("%" + run) == [Directive(run, [run[|run| - 1]], None)]
  {
    ReadsBare(run, [run[|run| - 1]], "");
    assert "%" + run + "" == "%" + run;
    NothingToRead();
  }

  /** A bare directive before any other character is named by its whole run, and the rest of the pattern is
      read on its own from that character. */
  lemma {:induction false} BareBeforePrints(run: string, c: char, rest: string, level: LogLevel, event: Event)
    requires IsRun(run) && run != "" && !IsRunChar(c) && c != '{'
    ensures Pieces("%" + run + [c] + rest) == [Directive(run, run, None)] + Pieces([c] + rest)
    ensures TokensOf("%" + run + [c] + rest) == [Format(run, "")] + TokensOf([c] + rest)
  {
    hide Pieces;
    ReadsBare(run, run, [c] + rest);
    assert "%" + run + ([c] + rest) == "%" + run + [c] + rest;
    TokensCons(Directive(run, run, None), Pieces([c] + rest), "");
  }

  /** Text without a percent sign prints as it stands, and so does a percent sign before another one. */
  lemma {:induction false} TextPrints(s: string, level: LogLevel, event: Event)
    requires '%' !in s
    ensures Printed(s, level, event) == s && !HasError(s)
    ensures Printed(s + "%%m", level, event) == s + "%" + event.content
  {
    hide Printed;
    if s == "" {
      NothingPrints(level, event);
    } else {
      TextTokens(s, level, event);
    }
    PercentTokens(s, level, event);
  }

  lemma {:induction false} NothingPrints(level: LogLevel, event: Event)
    ensures Printed("", level, event) == "" && !HasError("")
  {
  }

  lemma {:induction false} TextTokens(s: string, level: LogLevel, event: Event)
    requires '%' !in s && s != ""
    ensures Printed(s, level, event) == s && !HasError(s)
  {
    var ts := [Text(s)];
    assert ts[1..] == [];
    assert Normal(ts);
    assert Print(ts) == s + "" == s;
    PrintedTokens(ts, level, event);
    RenderOne(ts[0], level, event);
  }

  lemma {:induction false} PercentTokens(s: string, level: LogLevel, event: Event)
    requires '%' !in s
    ensures Printed(s + "%%m", level, event) == s + "%" + event.content
  {
    var m := Format("m", "");
    var ts := [Text(s + "%"), m];
    assert ts[1..] == [m] && [m][1..] == [];
    assert Normal([m]) && Normal(ts);
    assert Print([m]) == "%m";
    assert Print(ts) == (s + "%") + "%m" == s + "%%m";
    PrintedTokens(ts, level, event);
    assert [Text(s + "%")] + [m] == ts;
    RenderTokensAppend([Text(s + "%")], [m], level, event);
    RenderOne(Text(s + "%"), level, event);
    RenderOne(m, level, event);
  }

  // ---------- whole patterns ----------

  /** What a token prints on its own: a text itself, a directive what the pattern with it alone prints. */
  function Alone(t: Token, level: LogLevel, event: Event): string {
    match t
    case Text(s) => s
    case Format(_, _) => Printed(PrintToken(t, ""), level, event)
  }

  function EachAlone(ts: seq<Token>, level: LogLevel, event: Event): seq<string> {
    seq(|ts|, i requires 0 <= i < |ts| => Alone(ts[i], level, event))
  }

  lemma {:induction false} RenderedAlone(t: Token, level: LogLevel, event: Event)
    requires NormalToken(t)
    ensures Render(ItemOf(t), level, event) == Alone(t, level, event)
  {
    if t.Format? {
      assert [t][1..] == [];
      assert Normal([t]);
      assert Print([t]) == PrintToken(t, "") + "" == PrintToken(t, "");
      PrintedTokens([t], level, event);
      RenderOne(t, level, event);
    }
  }

  lemma {:induction false} RenderedInOrder(ts: seq<Token>, level: LogLevel, event: Event)
    requires Normal(ts)
    ensures RenderTokens(ts, level, event) == Concat(EachAlone(ts, level, event))
  {
    if ts == [] {
      assert EachAlone(ts, level, event) == [];
    } else {
      var t, rest := ts[0], ts[1..];
      RenderedInOrder(rest, level, event);
      RenderedAlone(t, level, event);
      RenderTokensAppend([t], rest, level, event);
      RenderOne(t, level, event);
      assert ts == [t] + rest;
      hide RenderTokens, Render, ItemOf, Alone, Normal;
      assert EachAlone(ts, level, event)[1..] == EachAlone(rest, level, event);
    }
  }

  /** Every normal list of tokens, printed as a pattern, prints in order what its tokens print alone. */
  lemma {:induction false} PrintedInOrder(ts: seq<Token>, level: LogLevel, event: Event)
    requires Normal(ts)
    ensures Printed(Print(ts), level, event) == Concat(EachAlone(ts, level, event))
  {
    PrintedTokens(ts, level, event);
    RenderedInOrder(ts, level, event);
  }

  /** So does every pattern without an error, for the tokens it is read as. */
  lemma {:induction false} PatternPrints(p: string, level: LogLevel, event: Event)
    requires !HasError(p)
    ensures Printed(p, level, event) == Concat(EachAlone(TokensOf(p), level, event))
  {
    ParsePrint(p);
    RenderedInOrder(TokensOf(p), level, event);
  }
}

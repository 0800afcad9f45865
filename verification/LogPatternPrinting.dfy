/** Printing a token list as a pattern, and the parts of a pattern its tokens come from. */
module LogPatternPrinting {
  import opened Wrappers
  import opened LogPattern
  import opened LogPatternLaws

  // ---------- normal token lists ----------

  /** Inside a text token a '%' stands only in front of another '%', or at the very end. */
  predicate PercentsAtEnd(s: string) {
    forall k | 0 < k < |s| :: s[k - 1] == '%' ==> s[k] == '%'
  }

  predicate NormalToken(t: Token) {
    match t
    case Text(s) => s != "" && PercentsAtEnd(s)
    case Format(name, arg) => KnownName(name) && '}' !in arg
  }

  /** `t` may stand before `rest`: texts are never adjacent, and one that ends in '%' needs a
      directive after it. */
  predicate MayPrecede(t: Token, rest: seq<Token>) {
    t.Text? ==> if rest == [] then t.text == "" || Last(t.text) != '%' else rest[0].Format?
  }

  predicate Normal(ts: seq<Token>) {
    ts == [] || (NormalToken(ts[0]) && MayPrecede(ts[0], ts[1..]) && Normal(ts[1..]))
  }

  /** A directive is printed bare when it has no argument and `rest` cannot be drawn into it. */
  function PrintToken(t: Token, rest: string): string {
    match t
    case Text(s) => s
    case Format(name, arg) =>
      if arg == "" && (rest == "" || (!IsRunChar(rest[0]) && rest[0] != '{'))
      then "%" + name
      else "%" + name + "{" + arg + "}"
  }

  function Print(ts: seq<Token>): string {
    if ts == [] then "" else
    var rest := Print(ts[1..]);
    PrintToken(ts[0], rest) + rest
  }

  // ---------- printing, then parsing ----------

  predicate NoBadPiece(ps: seq<Piece>) {
    forall k | 0 <= k < |ps| :: !BadPiece(ps[k])
  }

  lemma {:induction false} LiteralsRead(s: string, rest: string, text: string)
    requires PercentsAtEnd(s) && (s != "" && Last(s) == '%' ==> rest != "" && rest[0] == '%')
    ensures Tokens(Pieces(s + rest), text) == Tokens(Pieces(rest), text + s)
    ensures NoBadPiece(Pieces(rest)) ==> NoBadPiece(Pieces(s + rest))
  {
    hide Pieces, StartsDirective, ScanDirective;
    if s == "" {
      assert s + rest == rest && text + s == text;
    } else {
      var more := s[1..] + rest;
      assert s + rest == [s[0]] + more;
      assert Fits(Literal(s[0]), more);
      FitsReads(Literal(s[0]), more);
      assert PercentsAtEnd(s[1..]);
      LiteralsRead(s[1..], rest, text + [s[0]]);
      TokensCons(Literal(s[0]), Pieces(more), text);
      assert text + [s[0]] + s[1..] == text + s;
    }
  }

  /** Pending text is flushed as soon as a directive, or the end, is met. */
  lemma {:induction false} FlushFirst(ps: seq<Piece>, text: string)
    requires ps == [] || ps[0].Directive?
    ensures Tokens(ps, text) == Flush(text) + Tokens(ps, "")
  {
    if ps != [] {
      assert Emitted(ps[0], text) == Flush(text) + Emitted(ps[0], "");
    }
  }

  lemma KnownNames(name: string)
    requires KnownName(name)
    ensures |name| == 1 && IsRun(name)
  {
  }

  lemma {:induction false} FormatReads(name: string, arg: string, rest: string)
    requires KnownName(name) && '}' !in arg
    ensures var ps := Pieces(PrintToken(Format(name, arg), rest) + rest);
            ps != [] && ps[0].Directive? && ps[0].name == name && ArgText(ps[0].arg) == arg && ps[1..] == Pieces(rest)
  {
    hide Pieces, KnownName;
    KnownNames(name);
    if arg == "" && (rest == "" || (!IsRunChar(rest[0]) && rest[0] != '{')) {
      ReadsBare(name, name, rest);
    } else {
      ReadsBraced(name, arg, rest);
    }
  }

  /** `p` is read as exactly the tokens `ts`, and starts with a directive if they do. */
  predicate ReadsAs(p: string, ts: seq<Token>) {
    && TokensOf(p) == ts && NoBadPiece(Pieces(p))
    && (ts == [] ==> p == "")
    && (ts != [] && ts[0].Format? ==> StartsDirective(p))
  }

  lemma {:induction false} TextReads(s: string, rest: string, ts: seq<Token>)
    requires NormalToken(Text(s)) && MayPrecede(Text(s), ts) && ReadsAs(rest, ts)
    ensures ReadsAs(s + rest, [Text(s)] + ts)
  {
    hide Tokens;
    LiteralsRead(s, rest, "");
    assert "" + s == s;
    if rest != "" {
      PiecesStep(rest);
    }
    FlushFirst(Pieces(rest), s);
  }

  lemma {:induction false} DirectiveReads(name: string, arg: string, rest: string, ts: seq<Token>)
    requires NormalToken(Format(name, arg)) && ReadsAs(rest, ts)
    ensures ReadsAs(PrintToken(Format(name, arg), rest) + rest, [Format(name, arg)] + ts)
  {
    hide Pieces, Tokens, KnownName;
    KnownNames(name);
    FormatReads(name, arg, rest);
    var ps := Pieces(PrintToken(Format(name, arg), rest) + rest);
    assert ps == [ps[0]] + ps[1..];
    TokensCons(ps[0], ps[1..], "");
  }

  lemma {:induction false} PrintReads(ts: seq<Token>)
    requires Normal(ts)
    ensures ReadsAs(Print(ts), ts)
  {
    hide ReadsAs, NormalToken, MayPrecede, PrintToken;
    if ts == [] {
      NothingReads();
    } else {
      PrintReads(ts[1..]);
      assert ts == [ts[0]] + ts[1..];
      match ts[0] {
        case Text(s) =>
          TextReads(s, Print(ts[1..]), ts[1..]);
          assert PrintToken(ts[0], Print(ts[1..])) == s by { TextPrints(s, Print(ts[1..])); }
        case Format(name, arg) =>
          DirectiveReads(name, arg, Print(ts[1..]), ts[1..]);
      }
    }
  }

  lemma NothingReads()
    ensures ReadsAs("", [])
  {
  }

  lemma TextPrints(s: string, rest: string)
    ensures PrintToken(Text(s), rest) == s
  {
  }

  // ---------- parsing: the tokens of an error-free pattern are normal ----------

  /** `text` is pending before a pattern that starts with `next`. */
  predicate GoodPending(text: string, next: string) {
    PercentsAtEnd(text) && (text != "" && Last(text) == '%' ==> next != "" && next[0] == '%')
  }

  lemma {:induction false} NormalCons(t: Token, ts: seq<Token>)
    ensures Normal([t] + ts) <==> NormalToken(t) && MayPrecede(t, ts) && Normal(ts)
  {
    assert ([t] + ts)[1..] == ts;
  }

  lemma {:induction false} NormalFlush(text: string, name: string, arg: string, ts: seq<Token>)
    requires PercentsAtEnd(text) && KnownName(name) && '}' !in arg && Normal(ts)
    ensures Normal(Flush(text) + [Format(name, arg)] + ts)
  {
    NormalCons(Format(name, arg), ts);
    if text != "" {
      NormalCons(Text(text), [Format(name, arg)] + ts);
      assert Flush(text) + [Format(name, arg)] + ts == [Text(text)] + ([Format(name, arg)] + ts);
    } else {
      assert Flush(text) + [Format(name, arg)] + ts == [Format(name, arg)] + ts;
    }
  }

  lemma {:induction false} EndOfPending(text: string)
    ensures GoodPending(text, "") ==> Normal(Flush(text))
    ensures forall next :: GoodPending(text, next) ==> PercentsAtEnd(text)
  {
  }

  lemma AfterDirective(x: Piece, next: string)
    requires x.Directive? && Fits(x, next)
    ensures GoodPending("", next) && '}' !in ArgText(x.arg)
  {
  }

  lemma GrowPending(text: string, c: char, next: string)
    requires GoodPending(text, [c] + next) && Fits(Literal(c), next)
    ensures GoodPending(text + [c], next)
  {
  }

  lemma {:induction false} TokensAreNormal(ps: seq<Piece>, text: string)
    requires WellFormed(ps) && NoBadPiece(ps) && GoodPending(text, Spans(ps))
    ensures Normal(Tokens(ps, text))
  {
    hide KnownName, Normal, Fits, GoodPending;
    EndOfPending(text);
    if ps != [] {
      var rest := ps[1..];
      assert forall k | 0 <= k < |rest| :: rest[k] == ps[k + 1];
      match ps[0] {
        case Literal(c) =>
          GrowPending(text, c, Spans(rest));
          TokensAreNormal(rest, text + [c]);
          assert Tokens(ps, text) == Tokens(rest, text + [c]);
        case Directive(_, name, arg) =>
          AfterDirective(ps[0], Spans(rest));
          TokensAreNormal(rest, "");
          assert !BadPiece(ps[0]);
          NormalFlush(text, name, ArgText(arg), Tokens(rest, ""));
      }
    }
  }

  /** Exactly the normal lists survive being printed and parsed back without an error. */
  lemma {:induction false} PrintParse(ts: seq<Token>)
    ensures TokensOf(Print(ts)) == ts && !HasError(Print(ts)) <==> Normal(ts)
  {
    if Normal(ts) {
      PrintReads(ts);
    } else if !HasError(Print(ts)) {
      SpansOfPieces(Print(ts));
      TokensAreNormal(Pieces(Print(ts)), "");
    }
  }

  /** Every error-free pattern means the same as the printed form of its tokens. */
  lemma {:induction false} ParsePrint(p: string)
    requires !HasError(p)
    ensures Normal(TokensOf(p)) && TokensOf(Print(TokensOf(p))) == TokensOf(p)
  {
    SpansOfPieces(p);
    TokensAreNormal(Pieces(p), "");
    PrintReads(TokensOf(p));
  }

  // ---------- where the tokens stand in the pattern ----------

  predicate Bracketed(piece: Piece) {
    piece.Directive? && piece.arg.Some?
  }

  ghost function FlushSpans(text: string): seq<string> {
    if text == "" then [] else [text]
  }

  ghost function EmittedSpans(x: Piece, text: string): seq<string> {
    if x.Directive? then FlushSpans(text) + [Span(x)] else []
  }

  /** The stretch of the pattern each token comes from, for a pattern with no unclosed brace. */
  ghost function TokenSpans(ps: seq<Piece>, text: string): seq<string> {
    if ps == [] then FlushSpans(text)
    else EmittedSpans(ps[0], text) + TokenSpans(ps[1..], Pending(ps[0], text))
  }

  ghost function Concat(ss: seq<string>): string {
    if ss == [] then "" else ss[0] + Concat(ss[1..])
  }

  lemma {:induction false} ConcatAppend(ss: seq<string>, us: seq<string>)
    ensures Concat(ss + us) == Concat(ss) + Concat(us)
  {
    if ss == [] {
      assert ss + us == us;
    } else {
      assert (ss + us)[1..] == ss[1..] + us;
      ConcatAppend(ss[1..], us);
    }
  }

  /** A token and its stretch: a text is its own stretch; a directive's stretch is '%', its run and
      its braced argument. The name is the run, except that a bare run which ends the pattern keeps only
      its last character. */
  predicate SpanOfToken(t: Token, span: string, ends: bool) {
    match t
    case Text(s) => span == s
    case Format(name, arg) =>
      || span == "%" + name + "{" + arg + "}"
      || (arg == "" && |span| > 0 && span[0] == '%' && IsRun(span[1..])
          && name == if ends then LastChar(span[1..]) else span[1..])
  }

  /** `ends` says that the last of the tokens ends the pattern. */
  ghost predicate SpansMatch(ts: seq<Token>, spans: seq<string>, ends: bool) {
    |ts| == |spans| && forall k | 0 <= k < |ts| :: SpanOfToken(ts[k], spans[k], ends && k == |ts| - 1)
  }

  lemma SpansMatchAppend(ts: seq<Token>, ss: seq<string>, us: seq<Token>, vs: seq<string>, ends: bool)
    requires SpansMatch(ts, ss, ends && us == []) && SpansMatch(us, vs, ends)
    ensures SpansMatch(ts + us, ss + vs, ends)
  {
    hide SpanOfToken;
  }

  lemma {:induction false} ConcatOne(s: string)
    ensures Concat([s]) == s
  {
    assert [s][1..] == [];
  }

  lemma {:induction false} SpansOfFlush(text: string)
    ensures SpansMatch(Flush(text), FlushSpans(text), true) && SpansMatch(Flush(text), FlushSpans(text), false)
    ensures Concat(FlushSpans(text)) == text
  {
    ConcatOne(text);
  }

  lemma {:induction false} DirectiveSpan(piece: Piece, rest: string)
    requires piece.Directive? && Fits(piece, rest)
    ensures SpansMatch([Format(piece.name, ArgText(piece.arg))], [Span(piece)], rest == "")
  {
    assert ("%" + piece.run)[1..] == piece.run;
  }

  lemma {:induction false} SpansOfEmitted(x: Piece, text: string, rest: string)
    requires !x.Broken? && Fits(x, rest)
    ensures SpansMatch(Emitted(x, text), EmittedSpans(x, text), rest == "")
    ensures Concat(EmittedSpans(x, text)) + Pending(x, text) == text + Span(x)
  {
    if x.Directive? {
      DirectiveSpan(x, rest);
      SpansOfFlush(text);
      hide SpansMatch, Fits, SpanOfToken, Span;
      SpansMatchAppend(Flush(text), FlushSpans(text), [Format(x.name, ArgText(x.arg))], [Span(x)], rest == "");
      ConcatAppend(FlushSpans(text), [Span(x)]);
      ConcatOne(Span(x));
    }
  }

  lemma {:induction false} TokensNotEmpty(ps: seq<Piece>, text: string)
    requires ps != [] || text != ""
    ensures Tokens(ps, text) != []
  {
    if ps != [] && ps[0].Literal? {
      TokensNotEmpty(ps[1..], Pending(ps[0], text));
    }
  }

  /** A directive is the last token exactly if nothing follows it in the pattern. */
  lemma {:induction false} EmittedEnds(x: Piece, text: string, rest: seq<Piece>)
    requires !x.Broken? && SpansMatch(Emitted(x, text), EmittedSpans(x, text), rest == [])
    ensures SpansMatch(Emitted(x, text), EmittedSpans(x, text), Tokens(rest, Pending(x, text)) == [])
  {
    if rest != [] {
      TokensNotEmpty(rest, Pending(x, text));
    }
  }

  lemma {:induction false} TokenSpansOf(ps: seq<Piece>, text: string)
    requires WellFormed(ps) && Broken !in ps
    ensures SpansMatch(Tokens(ps, text), TokenSpans(ps, text), true)
    ensures Concat(TokenSpans(ps, text)) == text + Spans(ps)
  {
    hide SpansMatch, Fits, Concat, Emitted, EmittedSpans, Pending, Span;
    if ps == [] {
      SpansOfFlush(text);
    } else {
      var x, rest, pending := ps[0], ps[1..], Pending(ps[0], text);
      SpansOfEmitted(x, text, Spans(rest));
      SpansEmpty(rest);
      TokenSpansOf(rest, pending);
      EmittedEnds(x, text, rest);
      SpansMatchAppend(Emitted(x, text), EmittedSpans(x, text), Tokens(rest, pending), TokenSpans(rest, pending), true);
      ConcatAppend(EmittedSpans(x, text), TokenSpans(rest, pending));
      var head := Concat(EmittedSpans(x, text));
      assert head + (pending + Spans(rest)) == (head + pending) + Spans(rest);
      assert text + Span(x) + Spans(rest) == text + (Span(x) + Spans(rest));
    }
  }

  /** The tokens partition a pattern with no unclosed brace: their stretches, in order, are the
      pattern, every text token is its stretch verbatim, and a directive's stretch shows its name and
      argument, up to a bare run that ends the pattern. */
  lemma {:induction false} TokensPartition(p: string)
    requires Broken !in Pieces(p)
    ensures SpansMatch(TokensOf(p), TokenSpans(Pieces(p), ""), true)
    ensures Concat(TokenSpans(Pieces(p), "")) == p
  {
    SpansOfPieces(p);
    TokenSpansOf(Pieces(p), "");
  }

  /** Prints a piece by the name that was looked up, with the braces it had. */
  function Reprint(ps: seq<Piece>): string {
    if ps == [] then "" else
    (if Bracketed(ps[0]) then "%" + ps[0].name + "{" + ps[0].arg.value + "}"
     else if ps[0].Directive? then "%" + ps[0].name
     else Span(ps[0])) + Reprint(ps[1..])
  }

  lemma {:induction false} ReprintLength(ps: seq<Piece>)
    requires WellFormed(ps)
    ensures var cut := ps != [] && Bare(Last(ps)) && |Last(ps).run| > 1;
            if cut then |Reprint(ps)| < |Spans(ps)| else Reprint(ps) == Spans(ps)
  {
    if ps != [] {
      ReprintLength(ps[1..]);
      SpansEmpty(ps[1..]);
      if ps[1..] == [] {
        assert ps == [ps[0]];
      } else {
        assert Last(ps) == Last(ps[1..]);
      }
    }
  }

  /** Re-printing the directives by name gives the pattern back, except when it ends in a bare run
      of several letters, of which only the last was kept. */
  lemma {:induction false} ReprintGivesPattern(p: string)
    ensures Reprint(Pieces(p)) == p <==> Pieces(p) == [] || !Bare(Last(Pieces(p))) || |Last(Pieces(p)).run| <= 1
  {
    SpansOfPieces(p);
    ReprintLength(Pieces(p));
  }
}

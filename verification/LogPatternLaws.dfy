/** Laws of the pattern language: reading and printing are inverse, and patterns compose. */
module LogPatternLaws {
  import opened Wrappers
  import opened LogPattern

  // ---------- pieces partition the pattern, and are determined by what they print ----------

  /** A closed brace cuts `q` into run, argument and rest. */
  lemma CutBraced(q: string, n: nat, m: nat)
    requires n < m < |q| && q[n] == '{' && q[m] == '}'
    ensures "%" + q[..n] + "{" + q[n + 1..m] + "}" + q[m + 1..] == "%" + q
  {
    assert q[..m] == q[..n] + "{" + q[n + 1..m];
    assert q == q[..m] + "}" + q[m + 1..];
  }

  lemma CutBare(q: string, n: nat)
    requires n <= |q|
    ensures "%" + q[..n] + q[n..] == "%" + q
  {
  }

  lemma JoinBraced(run: string, a: string, rest: string)
    ensures var q := run + "{" + a + "}" + rest;
            var n, m := |run|, |run| + 1 + |a|;
            && "%" + run + "{" + a + "}" + rest == "%" + q
            && q[..n] == run && q[n] == '{' && q[n + 1..m] == a && q[m] == '}' && q[m + 1..] == rest
  {
    assert "%" + run + "{" + a + "}" + rest == "%" + (run + "{" + a + "}" + rest);
  }

  /** One directive takes exactly its span off the pattern, and would be read back after it. */
  lemma {:induction false} ScanShape(q: string)
    requires StartsDirective("%" + q)
    ensures match ScanDirective(q)
            case Unterminated => Fits(Broken, q)
            case Found(piece, rest) => Span(piece) + rest == "%" + q && Fits(piece, rest)
  {
    hide RunLength, IndexOf;
    var n := RunLength(q);
    CutBare(q, n);
    if n == |q| {
      assert q[..n] == q;
    } else if q[n] == '{' {
      var m := n + 1 + IndexOf(q[n + 1..], '}');
      assert q[n + 1..][..m - n - 1] == q[n + 1..m];
      if m < |q| {
        CutBraced(q, n, m);
      }
    }
  }

  lemma LiteralFits(p: string)
    requires p != "" && !StartsDirective(p)
    ensures Fits(Literal(p[0]), p[1..]) && Span(Literal(p[0])) + p[1..] == p
  {
  }

  lemma NothingToRead()
    ensures Pieces("") == []
  {
  }

  /** For every pattern, also one with errors: the spans of its pieces, in order, are the pattern. */
  lemma {:induction false} SpansOfPieces(p: string)
    ensures Spans(Pieces(p)) == p && WellFormed(Pieces(p))
    decreases |p|
  {
    hide Fits, ScanDirective, Pieces;
    NothingToRead();
    if p != "" {
      PiecesStep(p);
      if !StartsDirective(p) {
        SpansOfPieces(p[1..]);
        LiteralFits(p);
      } else {
        ScanShape(p[1..]);
        assert "%" + p[1..] == p;
        match ScanDirective(p[1..]) {
          case Unterminated => SpansOfPieces(p[1..]);
          case Found(_, rest) => SpansOfPieces(rest);
        }
      }
    }
  }

  lemma {:induction false} ReadsBare(run: string, name: string, rest: string)
    requires Fits(Directive(run, name, None), rest)
    ensures Pieces("%" + run + rest) == [Directive(run, name, None)] + Pieces(rest)
  {
    hide RunLength, IndexOf, ScanDirective, Spans, Span;
    var p, q := "%" + run + rest, run + rest;
    assert p[1..] == q && q[..|run|] == run && q[|run|..] == rest;
    PiecesStep(p);
    if rest == "" {
      assert q == run;
      ScanBareToEnd(q);
    } else {
      assert q[|run|] == rest[0];
      ScanBare(q, |run|);
    }
  }

  lemma {:induction false} ReadsBraced(run: string, a: string, rest: string)
    requires IsRun(run) && '}' !in a
    ensures Pieces("%" + run + "{" + a + "}" + rest) == [Directive(run, run, Some(a))] + Pieces(rest)
  {
    hide RunLength, IndexOf, ScanDirective, Spans, Span, Fits, Pieces;
    var q := run + "{" + a + "}" + rest;
    JoinBraced(run, a, rest);
    assert ("%" + q)[1..] == q;
    PiecesStep("%" + q);
    ScanBraced(q, |run|, |run| + 1 + |a|);
    var ps := Pieces("%" + q);
    assert ps == [ps[0]] + ps[1..];
  }

  lemma {:induction false} FitsReads(piece: Piece, rest: string)
    requires Fits(piece, rest)
    ensures Pieces(Span(piece) + rest) == [piece] + Pieces(rest)
  {
    hide RunLength, IndexOf, ScanDirective;
    var p := Span(piece) + rest;
    match piece {
      case Literal(c) =>
        assert p[1..] == rest;
        PiecesStep(p);
      case Broken =>
        assert p[1..] == rest;
        PiecesStep(p);
        var n := RunLength(rest);
        assert rest[n + 1..|rest|] == rest[n + 1..];
        ScanBraced(rest, n, |rest|);
      case Directive(run, name, None) =>
        ReadsBare(run, name, rest);
      case Directive(run, _, Some(a)) =>
        ReadsBraced(run, a, rest);
    }
  }

  lemma {:induction false} WellFormedReads(ps: seq<Piece>)
    requires WellFormed(ps)
    ensures Pieces(Spans(ps)) == ps
  {
    if ps != [] {
      WellFormedReads(ps[1..]);
      FitsReads(ps[0], Spans(ps[1..]));
    }
  }

  /** A list of pieces is what the lexer reads from its own text exactly when it is well formed. */
  lemma {:induction false} PiecesOfSpans(ps: seq<Piece>)
    ensures Pieces(Spans(ps)) == ps <==> WellFormed(ps)
  {
    if WellFormed(ps) {
      WellFormedReads(ps);
    } else {
      SpansOfPieces(Spans(ps));
    }
  }

  // ---------- concatenation ----------

  lemma {:induction false} SpansAppend(ps: seq<Piece>, qs: seq<Piece>)
    ensures Spans(ps + qs) == Spans(ps) + Spans(qs)
  {
    hide Span;
    if ps == [] {
      assert ps + qs == qs;
    } else {
      assert (ps + qs)[1..] == ps[1..] + qs;
      SpansAppend(ps[1..], qs);
      Assoc(Span(ps[0]), Spans(ps[1..]), Spans(qs));
    }
  }

  predicate Bare(piece: Piece) {
    piece.Directive? && piece.arg.None?
  }

  /** `b` may follow a pattern whose last piece is `last` without being drawn into it. */
  predicate Seam(last: Piece, b: string) {
    Bare(last) && b != "" ==>
      |last.run| <= 1 && !IsRunChar(b[0]) && b[0] != '{' && (last.run == "" ==> b[0] != '%')
  }

  predicate Composable(a: string, b: string) {
    (Broken in Pieces(a) ==> '}' !in b) && (Pieces(a) != [] ==> Seam(Last(Pieces(a)), b))
  }

  lemma {:induction false} FitsMore(piece: Piece, r: string, b: string)
    requires Fits(piece, r)
    ensures Fits(piece, r + b) <==> (piece.Broken? ==> '}' !in b) && (r == "" ==> Seam(piece, b))
  {
    hide RunLength;
    if piece.Broken? {
      var n := RunLength(r);
      assert (r + b)[..n] == r[..n];
      RunLengthIs(r + b, n);
      assert (r + b)[n + 1..] == r[n + 1..] + b;
    } else if r == "" {
      assert r + b == b;
    }
  }

  lemma {:induction false} WellFormedCons(x: Piece, rest: seq<Piece>)
    ensures WellFormed([x] + rest) <==> Fits(x, Spans(rest)) && WellFormed(rest)
  {
    assert ([x] + rest)[1..] == rest;
  }

  lemma {:induction false} WellFormedAppend(ps: seq<Piece>, qs: seq<Piece>)
    requires WellFormed(ps) && WellFormed(qs)
    ensures WellFormed(ps + qs) <==>
            (Broken in ps ==> '}' !in Spans(qs)) && (ps != [] ==> Seam(Last(ps), Spans(qs)))
  {
    hide Fits, Seam, WellFormed, Spans;
    if ps == [] {
      assert ps + qs == qs;
    } else {
      var x, rest := ps[0], ps[1..];
      assert ps == [x] + rest && ps + qs == [x] + (rest + qs);
      WellFormedCons(x, rest);
      WellFormedCons(x, rest + qs);
      WellFormedAppend(rest, qs);
      SpansAppend(rest, qs);
      FitsMore(x, Spans(rest), Spans(qs));
      SpansEmpty(rest);
      assert Broken in ps <==> x == Broken || Broken in rest;
    }
  }

  lemma SpansEmpty(ps: seq<Piece>)
    ensures Spans(ps) == "" <==> ps == []
  {
  }

  /** Two patterns are read independently exactly when the second closes no brace of the first and
      is not drawn into its last directive. */
  lemma {:induction false} PiecesCompose(a: string, b: string)
    ensures Pieces(a + b) == Pieces(a) + Pieces(b) <==> Composable(a, b)
  {
    SpansOfPieces(a);
    SpansOfPieces(b);
    SpansAppend(Pieces(a), Pieces(b));
    PiecesOfSpans(Pieces(a) + Pieces(b));
    WellFormedAppend(Pieces(a), Pieces(b));
  }

  lemma {:induction false} RenderAppend(xs: seq<FormatItem>, ys: seq<FormatItem>, level: LogLevel, event: Event)
    ensures RenderAll(xs + ys, level, event) == RenderAll(xs, level, event) + RenderAll(ys, level, event)
  {
    hide Render;
    if xs == [] {
      assert xs + ys == ys;
    } else {
      assert (xs + ys)[1..] == xs[1..] + ys;
      RenderAppend(xs[1..], ys, level, event);
      Assoc(Render(xs[0], level, event), RenderAll(xs[1..], level, event), RenderAll(ys, level, event));
    }
  }

  function RenderTokens(ts: seq<Token>, level: LogLevel, event: Event): string {
    RenderAll(ItemsOf(ts), level, event)
  }

  lemma {:induction false} RenderTokensAppend(ts: seq<Token>, us: seq<Token>, level: LogLevel, event: Event)
    ensures RenderTokens(ts + us, level, event) == RenderTokens(ts, level, event) + RenderTokens(us, level, event)
  {
    assert ItemsOf(ts + us) == ItemsOf(ts) + ItemsOf(us);
    RenderAppend(ItemsOf(ts), ItemsOf(us), level, event);
  }

  lemma {:induction false} RenderOne(t: Token, level: LogLevel, event: Event)
    ensures RenderTokens([t], level, event) == Render(ItemOf(t), level, event)
  {
    var items := [ItemOf(t)];
    assert ItemsOf([t]) == items;
    assert RenderAll(items, level, event) == Render(items[0], level, event) + RenderAll(items[1..], level, event);
  }

  lemma {:induction false} RenderFlush(text: string, level: LogLevel, event: Event)
    ensures RenderTokens(Flush(text), level, event) == text
  {
    if text != "" {
      RenderOne(Text(text), level, event);
    }
  }

  // What is emitted for a pattern that is read in front of another, and what is still pending then.

  function Settled(ps: seq<Piece>, text: string): seq<Token> {
    if ps == [] then [] else Emitted(ps[0], text) + Settled(ps[1..], Pending(ps[0], text))
  }

  function LeftOver(ps: seq<Piece>, text: string): string {
    if ps == [] then text else LeftOver(ps[1..], Pending(ps[0], text))
  }

  lemma {:induction false} TokensAppend(ps: seq<Piece>, qs: seq<Piece>, text: string)
    ensures Tokens(ps + qs, text) == Settled(ps, text) + Tokens(qs, LeftOver(ps, text))
  {
    hide Emitted, Pending;
    if ps == [] {
      assert ps + qs == qs;
    } else {
      var x, rest := ps[0], ps[1..];
      TokensAppend(rest, qs, Pending(x, text));
      assert ps + qs == [x] + (rest + qs);
      TokensCons(x, rest + qs, text);
      Assoc(Emitted(x, text), Settled(rest, Pending(x, text)), Tokens(qs, LeftOver(ps, text)));
    }
  }

  /** The error texts of the unclosed braces that stand before the first directive. */
  function FirstErrors(qs: seq<Piece>): string {
    if qs == [] || qs[0].Directive? then ""
    else (if qs[0].Broken? then PATTERN_ERROR else "") + FirstErrors(qs[1..])
  }

  /** What the pieces print but those error texts, which overtake what is pending. */
  function Rest(qs: seq<Piece>, level: LogLevel, event: Event): string {
    if qs == [] then ""
    else match qs[0]
      case Literal(c) => [c] + Rest(qs[1..], level, event)
      case Broken => Rest(qs[1..], level, event)
      case Directive(_, name, arg) => RenderTokens([Format(name, ArgText(arg))] + Tokens(qs[1..], ""), level, event)
  }

  lemma {:induction false} RenderPending(qs: seq<Piece>, text: string, level: LogLevel, event: Event)
    ensures RenderTokens(Tokens(qs, text), level, event) == FirstErrors(qs) + (text + Rest(qs, level, event))
  {
    hide RenderTokens, Flush;
    if qs == [] {
      RenderFlush(text, level, event);
    } else {
      var rest := qs[1..];
      match qs[0] {
        case Literal(c) =>
          RenderPending(rest, text + [c], level, event);
          Assoc(text, [c], Rest(rest, level, event));
          assert Tokens(qs, text) == Tokens(rest, text + [c]);
          assert FirstErrors(qs) == FirstErrors(rest);
        case Broken =>
          RenderPending(rest, text, level, event);
          RenderTokensAppend([Text(PATTERN_ERROR)], Tokens(rest, text), level, event);
          RenderOne(Text(PATTERN_ERROR), level, event);
          Assoc(PATTERN_ERROR, FirstErrors(rest), text + Rest(rest, level, event));
        case Directive(_, name, arg) =>
          var t := Format(name, ArgText(arg));
          Assoc(Flush(text), [t], Tokens(rest, ""));
          RenderTokensAppend(Flush(text), [t] + Tokens(rest, ""), level, event);
          RenderFlush(text, level, event);
      }
    }
  }

  /** The text is the error text, any number of times. */
  predicate ErrorTexts(s: string) {
    s == "" || (PATTERN_ERROR <= s && ErrorTexts(s[|PATTERN_ERROR|..]))
  }

  lemma {:induction false} ErrorTextsCons(s: string)
    ensures ErrorTexts(PATTERN_ERROR + s) <==> ErrorTexts(s)
  {
    assert (PATTERN_ERROR + s)[|PATTERN_ERROR|..] == s;
  }

  lemma {:induction false} FirstErrorsAre(qs: seq<Piece>)
    ensures ErrorTexts(FirstErrors(qs))
    ensures FirstErrors(qs) != "" <==> BrokenAhead(qs)
  {
    if qs != [] && !qs[0].Directive? {
      FirstErrorsAre(qs[1..]);
      ErrorTextsCons(FirstErrors(qs[1..]));
      assert "" + FirstErrors(qs[1..]) == FirstErrors(qs[1..]);
    }
  }

  /** An unclosed brace stands before the first directive. */
  predicate BrokenAhead(qs: seq<Piece>) {
    qs != [] && !qs[0].Directive? && (qs[0].Broken? || BrokenAhead(qs[1..]))
  }

  lemma {:induction false} OneErrorCommutes(s: string)
    requires ErrorTexts(s)
    ensures PATTERN_ERROR + s == s + PATTERN_ERROR
  {
    if s != "" {
      var tail := s[|PATTERN_ERROR|..];
      assert s == PATTERN_ERROR + tail;
      OneErrorCommutes(tail);
      Assoc(PATTERN_ERROR, tail, PATTERN_ERROR);
    }
  }

  lemma Swap(a: string, b: string, c: string)
    requires a + c == c + a && b + c == c + b
    ensures (a + b) + c == c + (a + b)
  {
    Assoc(a, b, c);
    Assoc(a, c, b);
    Assoc(c, a, b);
  }

  lemma {:induction false} ErrorsCommute(s: string, t: string)
    requires ErrorTexts(s) && ErrorTexts(t)
    ensures s + t == t + s
  {
    if s != "" {
      var tail := s[|PATTERN_ERROR|..];
      assert s == PATTERN_ERROR + tail;
      ErrorsCommute(tail, t);
      OneErrorCommutes(t);
      Swap(PATTERN_ERROR, tail, t);
    } else {
      assert s + t == t == t + s;
    }
  }

  lemma ShiftFails(errors: string, s: string)
    requires PATTERN_ERROR <= errors && 0 < |s| < |PATTERN_ERROR|
    ensures errors + s != s + errors
  {
    if |s| == 1 {
      assert (errors + s)[2] == 'p' && (s + errors)[2] == '<';
    } else {
      assert (errors + s)[|s|] == PATTERN_ERROR[|s|] && (s + errors)[|s|] == '<';
    }
  }

  /** The error text cannot be shifted over itself, so only its repetitions commute with it. */
  lemma {:induction false} CommutingIsErrors(errors: string, s: string)
    requires PATTERN_ERROR <= errors && ErrorTexts(errors) && errors + s == s + errors
    ensures ErrorTexts(s)
    decreases |s|
  {
    var n := |PATTERN_ERROR|;
    if s != "" {
      if |s| < n {
        ShiftFails(errors, s);
      } else {
        assert s[..n] == (s + errors)[..n] == (errors + s)[..n] == errors[..n] == PATTERN_ERROR;
        var tail := s[n..];
        assert s == PATTERN_ERROR + tail;
        OneErrorCommutes(errors);
        Assoc(errors, PATTERN_ERROR, tail);
        Assoc(PATTERN_ERROR, errors, tail);
        Assoc(PATTERN_ERROR, tail, errors);
        assert (PATTERN_ERROR + (errors + tail))[n..] == errors + tail;
        assert (PATTERN_ERROR + (tail + errors))[n..] == tail + errors;
        CommutingIsErrors(errors, tail);
      }
    }
  }

  lemma {:induction false} ErrorsSwap(errors: string, s: string)
    requires ErrorTexts(errors)
    ensures errors + s == s + errors <==> errors == "" || ErrorTexts(s)
  {
    if errors == "" {
      assert errors + s == s == s + errors;
    } else if ErrorTexts(s) {
      ErrorsCommute(errors, s);
    } else if errors + s == s + errors {
      CommutingIsErrors(errors, s);
    }
  }

  lemma Cancel(a: string, x: string, y: string, z: string)
    requires |x| == |y|
    ensures a + (x + z) == a + (y + z) <==> x == y
  {
    assert (a + (x + z))[|a|..][..|x|] == x;
    assert (a + (y + z))[|a|..][..|y|] == y;
  }

  function Printed(p: string, level: LogLevel, event: Event): string {
    RenderAll(CompiledItems(p), level, event)
  }

  /** Printing composes, so that `a + b` prints what `a` prints and then what `b` prints, exactly when no
      error text of `b` overtakes text left pending by `a`, or when that text is itself error texts. */
  lemma {:induction false} RenderCompose(a: string, b: string, level: LogLevel, event: Event)
    requires Composable(a, b)
    ensures Printed(a + b, level, event) == Printed(a, level, event) + Printed(b, level, event)
            <==> (BrokenAhead(Pieces(b)) ==> ErrorTexts(LeftOver(Pieces(a), "")))
  {
    PiecesCompose(a, b);
    hide Pieces, Composable, RenderAll, ItemsOf, ErrorTexts, FirstErrors, BrokenAhead, Rest, Settled, LeftOver, Tokens;
    var ps, qs := Pieces(a), Pieces(b);
    var settled, left := RenderTokens(Settled(ps, ""), level, event), LeftOver(ps, "");
    var errors, rest := FirstErrors(qs), Rest(qs, level, event);
    PrintedSplits(ps, qs, level, event);
    PrintedEnds(ps, level, event);
    RenderPending(qs, "", level, event);
    assert "" + rest == rest;
    Regroup(settled, left, errors, rest);
    Cancel(settled, errors + left, left + errors, rest);
    FirstErrorsAre(qs);
    ErrorsSwap(errors, left);
  }

  lemma {:induction false} PrintedSplits(ps: seq<Piece>, qs: seq<Piece>, level: LogLevel, event: Event)
    ensures RenderTokens(Tokens(ps + qs, ""), level, event)
            == RenderTokens(Settled(ps, ""), level, event)
               + (FirstErrors(qs) + (LeftOver(ps, "") + Rest(qs, level, event)))
  {
    hide RenderTokens, Tokens, Settled, LeftOver, FirstErrors, Rest;
    TokensAppend(ps, qs, "");
    RenderTokensAppend(Settled(ps, ""), Tokens(qs, LeftOver(ps, "")), level, event);
    RenderPending(qs, LeftOver(ps, ""), level, event);
  }

  lemma {:induction false} PrintedEnds(ps: seq<Piece>, level: LogLevel, event: Event)
    ensures RenderTokens(Tokens(ps, ""), level, event)
            == RenderTokens(Settled(ps, ""), level, event) + LeftOver(ps, "")
  {
    hide RenderTokens, Settled, LeftOver;
    PrintedSplits(ps, [], level, event);
    assert ps + [] == ps;
    assert "" + (LeftOver(ps, "") + "") == LeftOver(ps, "");
  }

  lemma Regroup(a: string, l: string, e: string, r: string)
    ensures a + (e + (l + r)) == a + ((e + l) + r)
    ensures (a + l) + (e + r) == a + ((l + e) + r)
  {
    Assoc(e, l, r);
    Assoc(l, e, r);
    Assoc(a, l, e + r);
  }

  /** In particular, printing composes whenever `b` has no unclosed brace at all. */
  lemma {:induction false} UnbrokenCompose(a: string, b: string, level: LogLevel, event: Event)
    requires Composable(a, b) && Broken !in Pieces(b)
    ensures Printed(a + b, level, event) == Printed(a, level, event) + Printed(b, level, event)
  {
    hide Printed, Pieces, Composable;
    RenderCompose(a, b, level, event);
    NoneAhead(Pieces(b));
  }

  lemma {:induction false} NoneAhead(qs: seq<Piece>)
    requires Broken !in qs
    ensures !BrokenAhead(qs)
  {
    if qs != [] {
      NoneAhead(qs[1..]);
    }
  }

  lemma {:induction false} ErrorCompose(a: string, b: string)
    requires Composable(a, b)
    ensures HasError(a + b) <==> HasError(a) || HasError(b)
  {
    hide Pieces, Composable, BadPiece;
    PiecesCompose(a, b);
    var ps, qs := Pieces(a), Pieces(b);
    if k :| 0 <= k < |ps| && BadPiece(ps[k]) {
      assert BadPiece((ps + qs)[k]);
    }
    if k :| 0 <= k < |qs| && BadPiece(qs[k]) {
      assert BadPiece((ps + qs)[|ps| + k]);
    }
  }

  lemma {:induction false} ThreePieces(c: char, d: char)
    requires c != '%' && d == '{'
    ensures Pieces([c, '%', d]) == [Literal(c), Broken, Literal(d)]
    ensures Pieces(['%', d]) == [Broken, Literal(d)]
    ensures Pieces([c]) == [Literal(c)]
  {
    var one, two, three := [Literal(d)], [Broken, Literal(d)], [Literal(c), Broken, Literal(d)];
    assert one[1..] == [] && two[1..] == one && three[1..] == two && [Literal(c)][1..] == [];
    assert Spans(one) == [d];
    assert Spans(two) == "%" + [d] && "%" + [d] == ['%', d];
    assert Spans(three) == [c] + Spans(two);
    assert Spans(two) == ['%', d] && Spans(three) == [c, '%', d] && Spans([Literal(c)]) == [c];
    assert RunLength([d]) == 0 && [d][1..] == "";
    assert Fits(Broken, [d]) && Fits(Literal(c), ['%', d]) && Fits(Literal(d), "");
    assert WellFormed(one) && WellFormed(two);
    WellFormedReads(three);
    WellFormedReads(two);
    WellFormedReads([Literal(c)]);
  }

  lemma {:induction false} OvertakingTokens()
    ensures Composable("x", "%{") && TokensOf("x") == [Text("x")]
    ensures TokensOf("x%{") == [Text(PATTERN_ERROR), Text("x{")] && TokensOf("%{") == [Text(PATTERN_ERROR), Text("{")]
  {
    hide Pieces;
    ThreePieces('x', '{');
    assert "x%{" == ['x', '%', '{'] && "%{" == ['%', '{'] && "x" == ['x'];
    assert "" + ['x'] == "x" && "x" + ['{'] == "x{" && "" + ['{'] == "{";
    var x, broken, brace := Literal('x'), Broken, Literal('{');
    TokensCons(x, [broken, brace], "");
    TokensCons(broken, [brace], "x");
    TokensCons(brace, [], "x");
    TokensCons(broken, [brace], "");
    TokensCons(brace, [], "");
    TokensCons(x, [], "");
    assert [x] + [broken, brace] == [x, broken, brace] && [broken] + [brace] == [broken, brace]
           && [brace] + [] == [brace] && [x] + [] == [x];
  }

  lemma {:induction false} RenderTwo(s: string, t: string, level: LogLevel, event: Event)
    ensures RenderTokens([Text(s)], level, event) == s && RenderTokens([Text(s), Text(t)], level, event) == s + t
  {
    assert [Text(s)] + [Text(t)] == [Text(s), Text(t)];
    RenderTokensAppend([Text(s)], [Text(t)], level, event);
    RenderOne(Text(s), level, event);
    RenderOne(Text(t), level, event);
  }

  /** An unclosed brace spoils composition, since its error text overtakes the text pending before it:
      "x" and "%{" are read independently, but "x%{" prints the error first. */
  lemma {:induction false} ErrorTextOvertakes(level: LogLevel, event: Event)
    ensures Composable("x", "%{")
    ensures Printed("x%{", level, event) == "<<pattern_error>>x{"
    ensures Printed("x", level, event) + Printed("%{", level, event) == "x<<pattern_error>>{"
  {
    hide Composable, TokensOf, ItemsOf, RenderAll;
    OvertakingTokens();
    RenderTwo(PATTERN_ERROR, "x{", level, event);
    RenderTwo(PATTERN_ERROR, "{", level, event);
    RenderTwo("x", "", level, event);
    Assoc("x", PATTERN_ERROR, "{");
  }
}

/**
 The language of log patterns: a reference lexer that cuts a pattern into pieces, the tokens the
 compiler builds out of those pieces, and the text that the compiled items print.
 Positions, nested loops and the pending-text buffer of the compiler live in module LogFormatters.
 */
module LogPattern {
  import opened Wrappers

  // ---------- pieces: what each stretch of the pattern is ----------

  /** `run` is the stretch after '%' that is passed over, `name` the item that is looked up.
      `Broken` is a '%' whose '{' is never closed. */
  datatype Piece =
    | Literal(c: char)
    | Directive(run: string, name: string, arg: Option<string>)
    | Broken

  /** Characters that do not end a directive's name: letters, and a stray '}'. */
  predicate IsRunChar(c: char) {
    IsAlpha(c) || c == '}'
  }

  predicate IsRun(s: string) {
    forall k | 0 <= k < |s| :: IsRunChar(s[k])
  }

  function RunLength(q: string): (n: nat)
    ensures n <= |q| && IsRun(q[..n])
    ensures n < |q| ==> !IsRunChar(q[n])
  {
    if q == "" || !IsRunChar(q[0]) then 0 else 1 + RunLength(q[1..])
  }

  function IndexOf(q: string, c: char): (n: nat)
    ensures n <= |q| && c !in q[..n]
    ensures n < |q| ==> q[n] == c
  {
    if q == "" || q[0] == c then 0 else 1 + IndexOf(q[1..], c)
  }

  function LastChar(s: string): string {
    if s == "" then "" else [Last(s)]
  }

  datatype Scan = Unterminated | Found(piece: Piece, rest: string)

  /** Reads one directive; `q` is what follows its '%'. A bare run that ends the pattern keeps only
      its last character as the name. */
  function ScanDirective(q: string): (s: Scan)
    ensures s.Found? ==> |s.rest| <= |q| && s.piece.Directive?
  {
    var n := RunLength(q);
    if n == |q| then Found(Directive(q, LastChar(q), None), "")
    else if q[n] != '{' then Found(Directive(q[..n], q[..n], None), q[n..])
    else
      var m := n + 1 + IndexOf(q[n + 1..], '}');
      if m == |q| then Unterminated
      else Found(Directive(q[..n], q[..n], Some(q[n + 1..m])), q[m + 1..])
  }

  predicate StartsDirective(p: string) {
    p != "" && p[0] == '%' && (|p| == 1 || p[1] != '%')
  }

  function Pieces(p: string): seq<Piece>
    decreases |p|
  {
    if p == "" then []
    else if !StartsDirective(p) then [Literal(p[0])] + Pieces(p[1..])
    else match ScanDirective(p[1..])
      case Unterminated => [Broken] + Pieces(p[1..])
      case Found(piece, rest) => [piece] + Pieces(rest)
  }

  // Where one directive ends, by the shape of what follows its '%'.

  lemma {:induction false} RunLengthIs(q: string, n: nat)
    requires n <= |q| && IsRun(q[..n]) && (n < |q| ==> !IsRunChar(q[n]))
    ensures RunLength(q) == n
  {
  }

  lemma {:induction false} IndexOfIs(q: string, c: char, n: nat)
    requires n <= |q| && c !in q[..n] && (n < |q| ==> q[n] == c)
    ensures IndexOf(q, c) == n
  {
  }

  lemma {:induction false} ScanBare(q: string, n: nat)
    requires n < |q| && IsRun(q[..n]) && !IsRunChar(q[n]) && q[n] != '{'
    ensures ScanDirective(q) == Found(Directive(q[..n], q[..n], None), q[n..])
  {
    RunLengthIs(q, n);
  }

  lemma {:induction false} ScanBareToEnd(q: string)
    requires IsRun(q)
    ensures ScanDirective(q) == Found(Directive(q, LastChar(q), None), "")
  {
    assert q[..|q|] == q;
    RunLengthIs(q, |q|);
  }

  lemma {:induction false} ScanBraced(q: string, n: nat, m: nat)
    requires n < m <= |q| && IsRun(q[..n]) && q[n] == '{'
    requires '}' !in q[n + 1..m] && (m < |q| ==> q[m] == '}')
    ensures ScanDirective(q) == if m == |q| then Unterminated
                                else Found(Directive(q[..n], q[..n], Some(q[n + 1..m])), q[m + 1..])
  {
    RunLengthIs(q, n);
    assert q[n + 1..][..m - n - 1] == q[n + 1..m];
    IndexOfIs(q[n + 1..], '}', m - n - 1);
  }

  lemma {:induction false} PiecesStep(p: string)
    requires p != ""
    ensures Pieces(p) != []
    ensures !StartsDirective(p) ==> Pieces(p)[0] == Literal(p[0]) && Pieces(p)[1..] == Pieces(p[1..])
    ensures StartsDirective(p) ==>
              match ScanDirective(p[1..])
              case Unterminated => Pieces(p)[0] == Broken && Pieces(p)[1..] == Pieces(p[1..])
              case Found(piece, rest) => Pieces(p)[0] == piece && Pieces(p)[1..] == Pieces(rest)
  {
  }

  function Span(piece: Piece): string {
    match piece
    case Literal(c) => [c]
    case Directive(run, _, None) => "%" + run
    case Directive(run, _, Some(a)) => "%" + run + "{" + a + "}"
    case Broken => "%"
  }

  function Spans(ps: seq<Piece>): string {
    if ps == [] then "" else Span(ps[0]) + Spans(ps[1..])
  }

  /** Does `piece` read back as itself when `rest` follows it in the pattern? */
  predicate Fits(piece: Piece, rest: string) {
    match piece
    case Literal(c) => c != '%' || (rest != "" && rest[0] == '%')
    case Directive(run, name, Some(a)) => IsRun(run) && name == run && '}' !in a
    case Directive(run, name, None) =>
      IsRun(run) &&
      if rest == "" then name == LastChar(run)
      else name == run && !IsRunChar(rest[0]) && rest[0] != '{' && (run == "" ==> rest[0] != '%')
    case Broken =>
      var n := RunLength(rest);
      n < |rest| && rest[n] == '{' && '}' !in rest[n + 1..]
  }

  predicate WellFormed(ps: seq<Piece>) {
    ps == [] || (Fits(ps[0], Spans(ps[1..])) && WellFormed(ps[1..]))
  }

  // ---------- tokens and items ----------

  datatype Token = Text(text: string) | Format(name: string, arg: string)

  const PATTERN_ERROR := "<<pattern_error>>"

  function Flush(text: string): seq<Token> {
    if text == "" then [] else [Text(text)]
  }

  function ArgText(arg: Option<string>): string {
    match arg
    case None => ""
    case Some(a) => a
  }

  /** What one piece emits when `text` is the literal text read so far and not yet emitted. A broken
      directive emits its error text ahead of it. */
  function Emitted(x: Piece, text: string): seq<Token> {
    match x
    case Literal(_) => []
    case Broken => [Text(PATTERN_ERROR)]
    case Directive(_, name, arg) => Flush(text) + [Format(name, ArgText(arg))]
  }

  /** The text still pending after the piece. */
  function Pending(x: Piece, text: string): string {
    match x
    case Literal(c) => text + [c]
    case Broken => text
    case Directive(_, _, _) => ""
  }

  function Tokens(ps: seq<Piece>, text: string): seq<Token> {
    if ps == [] then Flush(text) else Emitted(ps[0], text) + Tokens(ps[1..], Pending(ps[0], text))
  }

  lemma {:induction false} TokensCons(x: Piece, rest: seq<Piece>, text: string)
    ensures Tokens([x] + rest, text) == Emitted(x, text) + Tokens(rest, Pending(x, text))
  {
    assert ([x] + rest)[1..] == rest;
  }

  function TokensOf(p: string): seq<Token> {
    Tokens(Pieces(p), "")
  }

  datatype FormatItem =
    | StringItem(s: string)
    | MessageItem
    | LevelItem
    | ElapseItem
    | ThreadIdItem
    | NewLineItem
    | DateTimeItem(format: string)
    | FileNameItem
    | LineNumberItem
    | TabItem

  const DEFAULT_DATE := "%Y-%m-%d %H:%M:%S"

  /** The table of item makers, by name. */
  function LookupItem(name: string, arg: string): Option<FormatItem> {
    if name == "m" then Some(MessageItem)
    else if name == "p" then Some(LevelItem)
    else if name == "r" then Some(ElapseItem)
    else if name == "t" then Some(ThreadIdItem)
    else if name == "n" then Some(NewLineItem)
    else if name == "d" then Some(DateTimeItem(if arg == "" then DEFAULT_DATE else arg))
    else if name == "f" then Some(FileNameItem)
    else if name == "l" then Some(LineNumberItem)
    else if name == "T" then Some(TabItem)
    else None
  }

  predicate KnownName(name: string) {
    LookupItem(name, "").Some?
  }

  function ItemOf(t: Token): FormatItem {
    match t
    case Text(s) => StringItem(s)
    case Format(name, arg) =>
      match LookupItem(name, arg)
      case Some(item) => item
      case None => StringItem("<<error_format %" + name + ">>")
  }

  function ItemsOf(ts: seq<Token>): seq<FormatItem> {
    seq(|ts|, k requires 0 <= k < |ts| => ItemOf(ts[k]))
  }

  function CompiledItems(p: string): seq<FormatItem> {
    ItemsOf(TokensOf(p))
  }

  predicate UnknownFormat(t: Token) {
    t.Format? && !KnownName(t.name)
  }

  predicate BadPiece(piece: Piece) {
    piece.Broken? || (piece.Directive? && !KnownName(piece.name))
  }

  /** The pattern has a directive with an unclosed brace, or one whose name is not in the table. */
  predicate HasError(p: string) {
    exists k | 0 <= k < |Pieces(p)| :: BadPiece(Pieces(p)[k])
  }

  /** Name errors of the tokens are name errors of the pieces. */
  lemma {:induction false} UnknownFormats(ps: seq<Piece>, text: string)
    ensures (exists t :: t in Tokens(ps, text) && UnknownFormat(t)) <==>
            (exists k | 0 <= k < |ps| :: ps[k].Directive? && !KnownName(ps[k].name))
  {
    if ps != [] {
      var rest := ps[1..];
      assert forall k | 1 <= k < |ps| :: ps[k] == rest[k - 1];
      match ps[0]
      case Literal(c) =>
        UnknownFormats(rest, text + [c]);
      case Broken =>
        UnknownFormats(rest, text);
        assert !UnknownFormat(Text(PATTERN_ERROR));
      case Directive(_, name, arg) =>
        UnknownFormats(rest, "");
        assert Format(name, ArgText(arg)) in Tokens(ps, text);
    }
  }

  ghost predicate AnyUnknown(ts: seq<Token>) {
    exists t :: t in ts && UnknownFormat(t)
  }

  lemma {:induction false} ErrorOfTokens(p: string)
    ensures HasError(p) <==> Broken in Pieces(p) || AnyUnknown(TokensOf(p))
  {
    UnknownFormats(Pieces(p), "");
  }

  // ---------- printing ----------

  /** Severity, 0 (ALL) to 6 (OFF). */
  type LogLevel = n: nat | n <= 6

  const ALL: LogLevel := 0
  const INFO: LogLevel := 2
  const OFF: LogLevel := 6

  function LevelName(level: LogLevel): string {
    ["ALL", "DEBUG", "INFO", "WARN", "ERROR", "FATAL", "OFF"][level]
  }

  /** What the items read of an event and of the running thread, already as text; `date` stands for
      `strftime` applied to the event's time. */
  datatype Event = Event(content: string, elapse: string, threadId: string,
                         file: string, line: string, date: string -> string)

  function Render(item: FormatItem, level: LogLevel, event: Event): string {
    match item
    case StringItem(s) => s
    case MessageItem => event.content
    case LevelItem => LevelName(level)
    case ElapseItem => event.elapse
    case ThreadIdItem => event.threadId
    case NewLineItem => "\n"
    case DateTimeItem(format) => event.date(format)
    case FileNameItem => event.file
    case LineNumberItem => event.line
    case TabItem => "\t"
  }

  function RenderAll(items: seq<FormatItem>, level: LogLevel, event: Event): string {
    if items == [] then "" else Render(items[0], level, event) + RenderAll(items[1..], level, event)
  }
}

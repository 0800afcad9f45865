/** The pattern compiler and the formatter object, as the loops that run over the pattern. */
module LogFormatters {
  import opened Wrappers
  import opened LogPattern

  const DEFAULT_PATTERN := "%d{%Y-%m-%d %H:%M:%S}%T[%p]%T<%f:%l>%T%t%T%m %n"

  function EffectivePattern(given: string): string {
    if given == "" then DEFAULT_PATTERN else given
  }

  lemma SliceAfter(pattern: string, i: nat, a: nat, b: nat)
    requires a <= b && i + 1 + b <= |pattern|
    ensures pattern[i + 1..][a..b] == pattern[i + 1 + a..i + 1 + b]
    ensures pattern[i + 1..][b..] == pattern[i + 1 + b..]
  {
  }

  /** What the inner loop knows after `k` characters of `q`, the text behind the '%'; with status 1
      the open brace is at `b`. */
  ghost predicate Scanning(q: string, k: nat, status: nat, b: nat, str: string) {
    k <= |q| &&
    if status == 0 then IsRun(q[..k]) && str == if k == |q| then LastChar(q) else ""
    else status == 1 && b < k && IsRun(q[..b]) && q[b] == '{' && str == q[..b] && '}' !in q[b + 1..k]
  }

  lemma {:induction false} ScanningStart(q: string)
    ensures Scanning(q, 0, 0, 0, "")
  {
  }

  lemma {:induction false} ScanningStep(q: string, k: nat, status: nat, b: nat, str: string)
    requires k < |q| && Scanning(q, k, status, b, str)
    ensures status == 0 ==> str == ""
    ensures status == 0 && IsRunChar(q[k]) ==> Scanning(q, k + 1, 0, b, if k + 1 == |q| then [q[k]] else "")
    ensures status == 0 && q[k] == '{' ==> Scanning(q, k + 1, 1, k, q[..k])
    ensures status == 1 && q[k] != '}' ==> Scanning(q, k + 1, 1, b, str)
  {
    assert q[..k + 1] == q[..k] + [q[k]];
    if status == 1 {
      assert q[b + 1..k + 1] == q[b + 1..k] + [q[k]];
    }
  }

  /** The three ways to stop: at a character outside the name, at the closing brace, and at the end. */
  lemma {:induction false} ScanningStop(q: string, k: nat, status: nat, b: nat, str: string)
    requires Scanning(q, k, status, b, str)
    ensures status == 0 && k < |q| && !IsRunChar(q[k]) && q[k] != '{' ==>
              ScanDirective(q) == Found(Directive(q[..k], q[..k], None), q[k..])
    ensures status == 0 && k == |q| ==> ScanDirective(q) == Found(Directive(q, str, None), "")
    ensures status == 1 && k < |q| && q[k] == '}' ==>
              b < k && ScanDirective(q) == Found(Directive(str, str, Some(q[b + 1..k])), q[k + 1..])
    ensures status == 1 && k == |q| ==> ScanDirective(q) == Unterminated
  {
    hide ScanDirective;
    if status == 1 {
      if k == |q| || q[k] == '}' {
        ScanBraced(q, b, k);
      }
    } else if k == |q| {
      assert q[..k] == q;
      ScanBareToEnd(q);
    } else if !IsRunChar(q[k]) && q[k] != '{' {
      ScanBare(q, k);
    }
  }

  /** The inner loop: from the '%' at `i`, the end `n` of the directive, whether a brace is still
      open (`status`), and the name and argument read. */
  method ScanFrom(pattern: string, i: nat) returns (n: nat, status: nat, str: string, fmtStr: string)
    requires i < |pattern|
    ensures i < n <= |pattern|
    ensures match ScanDirective(pattern[i + 1..])
            case Unterminated => status == 1
            case Found(piece, rest) =>
              status == 0 && rest == pattern[n..] && piece.name == str && ArgText(piece.arg) == fmtStr
  {
    hide ScanDirective, Scanning;
    n := i + 1;
    status, str, fmtStr := 0, "", "";
    var fmtBegin := 0;
    ghost var q, k, b := pattern[i + 1..], 0, 0;
    ScanningStart(q);
    while n < |pattern|
      invariant n == i + 1 + k <= |pattern| && fmtStr == ""
      invariant status == 0 || (status == 1 && fmtBegin == i + 1 + b)
      invariant Scanning(q, k, status, b, str)
    {
      SliceAfter(pattern, i, 0, k);
      ScanningStep(q, k, status, b, str);
      ScanningStop(q, k, status, b, str);
      if status == 0 && !IsAlpha(pattern[n]) && pattern[n] != '{' && pattern[n] != '}' {
        str := pattern[i + 1..n];
        return;
      }
      if status == 0 {
        if pattern[n] == '{' {
          status, str, fmtBegin, b := 1, pattern[i + 1..n], n, k;
          assert str == q[..k];
          n, k := n + 1, k + 1;
          continue;
        }
        if n == |pattern| - 1 && str == "" {
          str := pattern[n..n + 1];
          assert str == [q[k]];
          n, k := n + 1, k + 1;
          continue;
        }
      }
      if status == 1 {
        if pattern[n] == '}' {
          SliceAfter(pattern, i, b + 1, k);
          SliceAfter(pattern, i, b + 1, k + 1);
          status, fmtStr := 0, pattern[fmtBegin + 1..n];
          n := n + 1;
          return;
        }
      }
      n, k := n + 1, k + 1;
    }
    ScanningStop(q, k, status, b, str);
  }

  /** One piece of the outer loop's progress: emit what it emits, keep what stays pending. */
  lemma {:induction false} EmitOne(vec: seq<Token>, ps: seq<Piece>, text: string)
    requires ps != []
    ensures vec + Tokens(ps, text) == vec + Emitted(ps[0], text) + Tokens(ps[1..], Pending(ps[0], text))
  {
    hide Emitted, Pending;
  }

  lemma NothingLeft(text: string)
    ensures Pieces("") == [] && Tokens([], text) == Flush(text)
  {
  }

  /** The outer loop. `broken` says that some directive had an unclosed brace. */
  method Tokenize(pattern: string) returns (vec: seq<Token>, broken: bool)
    ensures vec == TokensOf(pattern)
    ensures broken <==> Broken in Pieces(pattern)
  {
    hide Pieces, Tokens, ScanDirective;
    var text := "";
    vec, broken := [], false;
    var i := 0;
    ghost var todo := Pieces(pattern);
    assert pattern[0..] == pattern;
    while i < |pattern|
      invariant 0 <= i <= |pattern|
      invariant todo == Pieces(pattern[i..])
      invariant vec + Tokens(todo, text) == TokensOf(pattern)
      invariant broken || Broken in todo <==> Broken in Pieces(pattern)
      decreases |pattern| - i
    {
      assert pattern[i..][1..] == pattern[i + 1..];
      PiecesStep(pattern[i..]);
      EmitOne(vec, todo, text);
      assert todo == [todo[0]] + todo[1..];
      ghost var emitted := vec + Emitted(todo[0], text);
      todo := todo[1..];
      if pattern[i] != '%' {
        text := text + [pattern[i]];
        i := i + 1;
        assert vec == emitted;
        continue;
      }
      if i + 1 < |pattern| {
        if pattern[i + 1] == '%' {
          text := text + "%";
          i := i + 1;
          assert vec == emitted;
          continue;
        }
      }
      var n, status, str, fmtStr := ScanFrom(pattern, i);
      if status == 0 {
        if text != "" {
          vec := vec + [Text(text)];
          text := "";
        }
        vec := vec + [LogPattern.Format(str, fmtStr)];
        i := n;
      } else {
        vec := vec + [Text(PATTERN_ERROR)];
        broken := true;
        i := i + 1;
      }
      assert vec == emitted;
    }
    NothingLeft(text);
    assert pattern[i..] == "";
    if text != "" {
      vec := vec + [Text(text)];
    }
  }

  lemma NoTokens()
    ensures ItemsOf([]) == [] && !AnyUnknown([])
  {
  }

  lemma AppendToken(ts: seq<Token>, t: Token)
    ensures ItemsOf(ts + [t]) == ItemsOf(ts) + [ItemOf(t)]
    ensures AnyUnknown(ts + [t]) <==> AnyUnknown(ts) || UnknownFormat(t)
  {
    assert t in ts + [t];
  }

  class LogFormatter {
    const pattern: string
    var items: seq<FormatItem>
    var error: bool

    ghost predicate Compiled()
      reads this
    {
      items == CompiledItems(pattern) && error == HasError(pattern)
    }

    constructor (given: string)
      ensures pattern == EffectivePattern(given)
      ensures pattern == if given != "" then given else "%d{%Y-%m-%d %H:%M:%S}%T[%p]%T<%f:%l>%T%t%T%m %n"
      ensures Compiled()
    {
      pattern := if given == "" then DEFAULT_PATTERN else given;
      items, error := [], false;
      new;
      Parse();
    }

    /** Appends the compiled items, as `parse` does when it is run a second time. */
    method Parse()
      modifies this
      ensures items == old(items) + CompiledItems(pattern)
      ensures error == (old(error) || HasError(pattern))
    {
      hide Pieces, Tokens, ItemsOf, HasError, AnyUnknown;
      var vec, broken := Tokenize(pattern);
      if broken {
        error := true;
      }
      NoTokens();
      var k := 0;
      while k < |vec|
        invariant 0 <= k <= |vec|
        invariant items == old(items) + ItemsOf(vec[..k])
        invariant error == (old(error) || broken || AnyUnknown(vec[..k]))
      {
        assert vec[..k + 1] == vec[..k] + [vec[k]];
        AppendToken(vec[..k], vec[k]);
        match vec[k] {
          case Text(s) =>
            items := items + [StringItem(s)];
          case Format(name, arg) =>
            match LookupItem(name, arg) {
              case None =>
                items := items + [StringItem("<<error_format %" + name + ">>")];
                error := true;
              case Some(item) =>
                items := items + [item];
            }
        }
        k := k + 1;
      }
      assert vec[..k] == vec;
      ErrorOfTokens(pattern);
    }

    method Format(level: LogLevel, event: Event) returns (ss: string)
      ensures ss == RenderAll(items, level, event)
    {
      ss := "";
      var k := 0;
      while k < |items|
        invariant 0 <= k <= |items|
        invariant ss + RenderAll(items[k..], level, event) == RenderAll(items, level, event)
      {
        ss := ss + Render(items[k], level, event);
        assert items[k..][1..] == items[k + 1..];
        k := k + 1;
      }
    }
  }
}

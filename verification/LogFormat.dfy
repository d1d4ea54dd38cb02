/** The format compiler of src/logging.c: a format string with `{token}`s becomes a list of
    handlers, which is run for every log message.
 */
module LogFormat {
  import opened Wrappers
  import opened CharArrays

  const MAX_HANDLERS: nat := 1024
  const START := '{'
  const END := '}'

  datatype Token =
    | Severity | Name | Message | FunctionName | FileName | Time | DateTimeWithMs | TimeAsNanoseconds | LineNumber

  function NameOf(t: Token): string {
    match t
    case Severity => "severity"
    case Name => "name"
    case Message => "message"
    case FunctionName => "function_name"
    case FileName => "file_name"
    case Time => "time"
    case DateTimeWithMs => "date_time_with_ms"
    case TimeAsNanoseconds => "time_as_nanoseconds"
    case LineNumber => "line_number"
  }

  const TOKENS: seq<Token> := [
    Severity, Name, Message, FunctionName, FileName, Time, DateTimeWithMs, TimeAsNanoseconds, LineNumber]

  function Lookup(name: string, n: nat): Option<Token>
    requires n <= |TOKENS|
    decreases |TOKENS| - n
  {
    if n == |TOKENS| then None
    else if name == NameOf(TOKENS[n]) then Some(TOKENS[n])
    else Lookup(name, n + 1)
  }

  /** The token with this name, if there is one. */
  function KnownToken(name: string): (t: Option<Token>)
  {
    Lookup(name, 0)
  }

  lemma {:induction false} LookupIs(name: string, n: nat)
    requires n <= |TOKENS|
    ensures Lookup(name, n).Some? ==> NameOf(Lookup(name, n).value) == name
    decreases |TOKENS| - n
  {
    if n < |TOKENS| {
      LookupIs(name, n + 1);
    }
  }

  /** The tokens are known by exactly their names. */
  lemma KnownTokenIs(name: string, t: Token)
    ensures KnownToken(name) == Some(t) <==> name == NameOf(t)
  {
  }

  // ----- what a format string means

  /** The first `c` at or after `i`, or the length. */
  function FirstIndex(s: string, c: char, i: nat): (j: nat)
    requires i <= |s|
    ensures i <= j <= |s| && (j < |s| ==> s[j] == c) && forall k :: i <= k < j ==> s[k] != c
    decreases |s| - i
  {
    if i == |s| || s[i] == c then i else FirstIndex(s, c, i + 1)
  }

  /** The known token that begins at `i`: the text up to the first following `}` is its name. */
  function TokenAt(fmt: string, i: nat): Option<Token>
    requires i < |fmt|
  {
    var j := FirstIndex(fmt, END, i);
    if fmt[i] == START && j < |fmt| then KnownToken(fmt[i + 1..j]) else None
  }

  /** Character by character: a known token expands, everything else is literal. */
  function ExpandFrom(fmt: string, i: nat, env: Token -> string): string
    requires i <= |fmt|
    decreases |fmt| - i
  {
    if i == |fmt| then ""
    else
      var t := TokenAt(fmt, i);
      if t.Some? then env(t.value) + ExpandFrom(fmt, FirstIndex(fmt, END, i) + 1, env)
      else [fmt[i]] + ExpandFrom(fmt, i + 1, env)
  }

  function Expand(fmt: string, env: Token -> string): string {
    ExpandFrom(fmt, 0, env)
  }

  // ----- handler lists

  datatype Handler = CopyFromOrig(start: nat, end: nat) | ExpandToken(token: Token)

  predicate Fits(h: Handler, fmt: string) {
    h.CopyFromOrig? ==> h.start <= h.end <= |fmt|
  }

  function Output(h: Handler, fmt: string, env: Token -> string): string
    requires Fits(h, fmt)
  {
    if h.CopyFromOrig? then fmt[h.start..h.end] else env(h.token)
  }

  ghost predicate AllFit(handlers: seq<Handler>, fmt: string) {
    forall h :: h in handlers ==> Fits(h, fmt)
  }

  ghost function RunAll(handlers: seq<Handler>, fmt: string, env: Token -> string): string
    requires AllFit(handlers, fmt)
  {
    if handlers == [] then ""
    else RunAll(handlers[..|handlers| - 1], fmt, env) + Output(handlers[|handlers| - 1], fmt, env)
  }

  /** Printing every token handler back as its token. */
  function Braces(t: Token): string {
    [START] + NameOf(t) + [END]
  }

  lemma RunOneMore(handlers: seq<Handler>, h: Handler, fmt: string, env: Token -> string)
    requires AllFit(handlers, fmt) && Fits(h, fmt)
    ensures AllFit(handlers + [h], fmt)
    ensures RunAll(handlers + [h], fmt, env) == RunAll(handlers, fmt, env) + Output(h, fmt, env)
  {
    assert (handlers + [h])[..|handlers|] == handlers;
  }

  // ----- lemmas about the meaning

  lemma OneLiteral(fmt: string, i: nat, env: Token -> string)
    requires i < |fmt| && TokenAt(fmt, i) == None
    ensures ExpandFrom(fmt, i, env) == [fmt[i]] + ExpandFrom(fmt, i + 1, env)
  {
  }

  lemma SplitRun(fmt: string, i: nat, j: nat, tail: string)
    requires i < j <= |fmt|
    ensures [fmt[i]] + (fmt[i + 1..j] + tail) == fmt[i..j] + tail
  {
    assert fmt[i..j] == [fmt[i]] + fmt[i + 1..j];
  }

  /** Text without a `{` is literal. */
  lemma {:induction false} LiteralRun(fmt: string, i: nat, j: nat, env: Token -> string)
    requires i <= j <= |fmt| && forall k :: i <= k < j ==> fmt[k] != START
    ensures ExpandFrom(fmt, i, env) == fmt[i..j] + ExpandFrom(fmt, j, env)
    decreases j - i
  {
    if i < j {
      LiteralRun(fmt, i + 1, j, env);
      OneLiteral(fmt, i, env);
      hide ExpandFrom, TokenAt;
      SplitRun(fmt, i, j, ExpandFrom(fmt, j, env));
    } else {
      assert fmt[i..j] + ExpandFrom(fmt, j, env) == ExpandFrom(fmt, j, env);
    }
  }

  /** Where no `}` follows any more, everything is literal. */
  lemma {:induction false} LiteralTail(fmt: string, i: nat, env: Token -> string)
    requires i <= |fmt| && forall k :: i <= k < |fmt| ==> fmt[k] != END
    ensures ExpandFrom(fmt, i, env) == fmt[i..]
    decreases |fmt| - i
  {
    if i < |fmt| {
      LiteralTail(fmt, i + 1, env);
    }
  }

  // ----- which lists are compilations

  /** How much of the format string a handler stands for. */
  function Width(h: Handler): int {
    if h.CopyFromOrig? then h.end - h.start else |NameOf(h.token)| + 2
  }

  function EndOf(handlers: seq<Handler>): int {
    if handlers == [] then 0 else EndOf(handlers[..|handlers| - 1]) + Width(handlers[|handlers| - 1])
  }

  /** Handler `h` is right for the text that begins at `p`: a known token there, or a copy of text
      without `{`, of one `{` that begins no known token, or of everything when no `}` follows. */
  ghost predicate Segment(h: Handler, fmt: string, p: nat) {
    match h
    case ExpandToken(t) => p < |fmt| && TokenAt(fmt, p) == Some(t)
    case CopyFromOrig(start, end) =>
      && start == p && p <= end <= |fmt|
      && ((forall k :: p <= k < end ==> fmt[k] != START)
          || (end == p + 1 && TokenAt(fmt, p) == None)
          || (end == |fmt| && forall k :: p <= k < |fmt| ==> fmt[k] != END))
  }

  ghost predicate Compiles(handlers: seq<Handler>, fmt: string) {
    handlers != [] ==>
      var n := |handlers| - 1;
      Compiles(handlers[..n], fmt) && 0 <= EndOf(handlers[..n]) && Segment(handlers[n], fmt, EndOf(handlers[..n]))
  }

  lemma TokenWidth(fmt: string, p: nat)
    requires p < |fmt| && TokenAt(fmt, p).Some?
    ensures var j := FirstIndex(fmt, END, p);
            && j < |fmt| && j + 1 == p + Width(ExpandToken(TokenAt(fmt, p).value))
            && fmt[p..j + 1] == Braces(TokenAt(fmt, p).value)
  {
    var j := FirstIndex(fmt, END, p);
    LookupIs(fmt[p + 1..j], 0);
    assert fmt[p..j + 1] == [fmt[p]] + fmt[p + 1..j] + [fmt[j]];
  }

  lemma SegmentBounds(h: Handler, fmt: string, p: nat)
    requires Segment(h, fmt, p)
    ensures p <= p + Width(h) <= |fmt| && Fits(h, fmt)
  {
    if h.ExpandToken? {
      TokenWidth(fmt, p);
    }
  }

  lemma OneToken(fmt: string, p: nat, env: Token -> string)
    requires p < |fmt| && TokenAt(fmt, p).Some?
    ensures FirstIndex(fmt, END, p) < |fmt|
    ensures ExpandFrom(fmt, p, env) == env(TokenAt(fmt, p).value) + ExpandFrom(fmt, FirstIndex(fmt, END, p) + 1, env)
  {
    hide KnownToken;
  }

  lemma SegmentMeaning(h: Handler, fmt: string, p: nat, env: Token -> string)
    requires Segment(h, fmt, p)
    ensures 0 <= p + Width(h) <= |fmt| && Fits(h, fmt)
    ensures ExpandFrom(fmt, p, env) == Output(h, fmt, env) + ExpandFrom(fmt, p + Width(h), env)
  {
    hide TokenAt, ExpandFrom;
    if h.ExpandToken? {
      TokenWidth(fmt, p);
      OneToken(fmt, p, env);
      hide Width;
    } else {
      CopyMeaning(fmt, p, h.end, env);
    }
  }

  lemma CopyMeaning(fmt: string, p: nat, end: nat, env: Token -> string)
    requires Segment(CopyFromOrig(p, end), fmt, p)
    ensures ExpandFrom(fmt, p, env) == fmt[p..end] + ExpandFrom(fmt, end, env)
  {
    hide TokenAt, ExpandFrom;
    if forall k :: p <= k < end ==> fmt[k] != START {
      LiteralRun(fmt, p, end, env);
    } else if end == p + 1 && TokenAt(fmt, p) == None {
      OneLiteral(fmt, p, env);
      assert fmt[p..p + 1] == [fmt[p]];
    } else {
      LiteralTail(fmt, p, env);
      LiteralTail(fmt, end, env);
      assert fmt[p..end] + fmt[end..] == fmt[p..];
    }
  }

  lemma NothingFits(fmt: string)
    ensures AllFit([], fmt)
  {
  }

  lemma FitsSnoc(handlers: seq<Handler>, fmt: string)
    requires handlers != [] && AllFit(handlers[..|handlers| - 1], fmt) && Fits(handlers[|handlers| - 1], fmt)
    ensures AllFit(handlers, fmt)
  {
    assert handlers == handlers[..|handlers| - 1] + [handlers[|handlers| - 1]];
  }

  lemma {:induction false} CompiledBounds(handlers: seq<Handler>, fmt: string)
    requires Compiles(handlers, fmt)
    ensures 0 <= EndOf(handlers) <= |fmt| && AllFit(handlers, fmt)
  {
    hide Segment, Width, Fits, AllFit;
    NothingFits(fmt);
    if handlers != [] {
      var n := |handlers| - 1;
      CompiledBounds(handlers[..n], fmt);
      SegmentBounds(handlers[n], fmt, EndOf(handlers[..n]));
      FitsSnoc(handlers, fmt);
    }
  }

  /** Running a compilation, then expanding what it does not cover, is expanding it all. */
  lemma {:induction false} CompiledMeaning(handlers: seq<Handler>, fmt: string, env: Token -> string)
    requires Compiles(handlers, fmt)
    ensures 0 <= EndOf(handlers) <= |fmt| && AllFit(handlers, fmt)
    ensures RunAll(handlers, fmt, env) + ExpandFrom(fmt, EndOf(handlers), env) == Expand(fmt, env)
  {
    hide ExpandFrom, TokenAt, Width, Output, Segment, Fits;
    CompiledBounds(handlers, fmt);
    assert Expand(fmt, env) == ExpandFrom(fmt, 0, env);
    if handlers == [] {
      Associative("", "", ExpandFrom(fmt, 0, env));
    } else {
      var n := |handlers| - 1;
      var p := EndOf(handlers[..n]);
      CompiledMeaning(handlers[..n], fmt, env);
      SegmentMeaning(handlers[n], fmt, p, env);
      Associative(RunAll(handlers[..n], fmt, env), Output(handlers[n], fmt, env),
                  ExpandFrom(fmt, EndOf(handlers), env));
    }
  }

  lemma Associative(a: string, b: string, c: string)
    ensures a + b + c == a + (b + c)
  {
  }

  // ----- a list that stops early

  /** Token boundaries before `e` do not depend on what comes after `e`. */
  lemma TokenAtPrefix(fmt: string, p: nat, e: nat)
    requires p < e <= |fmt|
    ensures TokenAt(fmt, p) == None ==> TokenAt(fmt[..e], p) == None
    ensures FirstIndex(fmt, END, p) < e ==> TokenAt(fmt[..e], p) == TokenAt(fmt, p)
  {
    var j, j' := FirstIndex(fmt, END, p), FirstIndex(fmt[..e], END, p);
    assert forall k :: 0 <= k < e ==> fmt[..e][k] == fmt[k];
    if j' < e {
      assert fmt[j'] == END;
      assert j' == j;
      if fmt[p] == START {
        assert fmt[..e][p + 1..j] == fmt[p + 1..j];
      }
    }
  }

  lemma {:induction false} CompilesPrefix(handlers: seq<Handler>, fmt: string, e: nat)
    requires Compiles(handlers, fmt) && EndOf(handlers) <= e <= |fmt|
    ensures Compiles(handlers, fmt[..e])
  {
    if handlers != [] {
      var n := |handlers| - 1;
      var h, p := handlers[n], EndOf(handlers[..n]);
      SegmentBounds(h, fmt, p);
      CompilesPrefix(handlers[..n], fmt, e);
      if h.ExpandToken? {
        TokenWidth(fmt, p);
        TokenAtPrefix(fmt, p, e);
      } else if p < h.end {
        TokenAtPrefix(fmt, p, e);
      }
    }
  }

  lemma {:induction false} RunPrefix(handlers: seq<Handler>, fmt: string, e: nat, env: Token -> string)
    requires e <= |fmt| && AllFit(handlers, fmt[..e]) && AllFit(handlers, fmt)
    ensures RunAll(handlers, fmt[..e], env) == RunAll(handlers, fmt, env)
  {
    if handlers != [] {
      var n := |handlers| - 1;
      assert handlers[n] in handlers;
      RunPrefix(handlers[..n], fmt, e, env);
      var h := handlers[n];
      if h.CopyFromOrig? {
        assert fmt[..e][h.start..h.end] == fmt[h.start..h.end];
      }
    }
  }

  /** What a compilation prints is the expansion of the part of the format string it covers; and
      printing its tokens back as `{token}` gives that part itself. */
  lemma CompilationIsExpansion(handlers: seq<Handler>, fmt: string, env: Token -> string)
    requires Compiles(handlers, fmt)
    ensures 0 <= EndOf(handlers) <= |fmt| && AllFit(handlers, fmt)
    ensures RunAll(handlers, fmt, env) == Expand(fmt[..EndOf(handlers)], env)
    ensures RunAll(handlers, fmt, Braces) == fmt[..EndOf(handlers)]
  {
    CompiledBounds(handlers, fmt);
    var e := EndOf(handlers);
    CompilesPrefix(handlers, fmt, e);
    CompiledMeaning(handlers, fmt[..e], env);
    RunPrefix(handlers, fmt, e, env);
    CompiledMeaning(handlers, fmt[..e], Braces);
    RunPrefix(handlers, fmt, e, Braces);
    BracesAreIdentity(fmt[..e], 0);
  }

  lemma SplitText(s: string, i: nat, j: nat)
    requires i <= j <= |s|
    ensures s[i..] == s[i..j] + s[j..]
    ensures j == i + 1 ==> s[i..] == [s[i]] + s[j..]
  {
  }

  lemma {:induction false} BracesAreIdentity(fmt: string, i: nat)
    requires i <= |fmt|
    ensures ExpandFrom(fmt, i, Braces) == fmt[i..]
    decreases |fmt| - i
  {
    hide TokenAt, Braces, ExpandFrom, FirstIndex;
    if i < |fmt| {
      if TokenAt(fmt, i).Some? {
        TokenWidth(fmt, i);
        BracesAreIdentity(fmt, FirstIndex(fmt, END, i) + 1);
        BracesToken(fmt, i);
      } else {
        BracesAreIdentity(fmt, i + 1);
        SplitText(fmt, i, i + 1);
        OneLiteral(fmt, i, Braces);
      }
    } else {
      assert ExpandFrom(fmt, i, Braces) == fmt[i..] by {
        AtEnd(fmt, Braces);
      }
    }
  }

  lemma AtEnd(fmt: string, env: Token -> string)
    ensures ExpandFrom(fmt, |fmt|, env) == "" == fmt[|fmt|..]
  {
  }

  lemma BracesToken(fmt: string, i: nat)
    requires i < |fmt| && TokenAt(fmt, i).Some? && FirstIndex(fmt, END, i) < |fmt|
    requires ExpandFrom(fmt, FirstIndex(fmt, END, i) + 1, Braces) == fmt[FirstIndex(fmt, END, i) + 1..]
    ensures ExpandFrom(fmt, i, Braces) == fmt[i..]
  {
    hide TokenAt, Width, Braces, ExpandFrom, FirstIndex;
    TokenWidth(fmt, i);
    SplitText(fmt, i, FirstIndex(fmt, END, i) + 1);
    OneToken(fmt, i, Braces);
  }

  // ----- the code

  /** `rcutils_find` from position `i` on; `None` is SIZE_MAX. */
  method Find(str: string, i: nat, delimiter: char) returns (offset: Option<nat>)
    requires i <= |str|
    ensures offset == if FirstIndex(str, delimiter, i) == |str| then None else Some(FirstIndex(str, delimiter, i) - i)
  {
    var k := i;
    while k < |str|
      invariant i <= k <= |str| && FirstIndex(str, delimiter, k) == FirstIndex(str, delimiter, i)
    {
      if str[k] == delimiter {
        return Some(k - i);
      }
      k := k + 1;
    }
    offset := None;
  }

  /** `find_token_handler`. */
  method FindTokenHandler(token: string) returns (t: Option<Token>)
    ensures t == KnownToken(token)
  {
    for n := 0 to |TOKENS|
      invariant KnownToken(token) == Lookup(token, n)
    {
      if token == NameOf(TOKENS[n]) {
        return Some(TOKENS[n]);
      }
    }
    t := None;
  }

  class Formatter {
    const handlers: array<Handler>
    var count: nat

    constructor ()
      ensures handlers.Length == 1024 && fresh(handlers) && count == 0
    {
      handlers := new Handler[MAX_HANDLERS](_ => CopyFromOrig(0, 0));
      count := 0;
    }

    ghost predicate Valid()
      reads this
    {
      handlers.Length == MAX_HANDLERS && count <= handlers.Length
    }

    ghost function List(): seq<Handler>
      reads this, handlers
      requires Valid()
    {
      handlers[..count]
    }

    method AddHandler(h: Handler) returns (ok: bool)
      requires Valid()
      modifies this, handlers
      ensures Valid() && ok == (old(count) < 1024)
      ensures List() == if ok then old(List()) + [h] else old(List())
    {
      if count >= handlers.Length {
        return false;
      }
      handlers[count] := h;
      count := count + 1;
      ok := true;
    }

    /** `parse_and_create_handlers_list`: the whole format string is compiled, unless it needs more
        than 1024 handlers. */
    method ParseAndCreateHandlersList(fmt: string)
      requires Valid()
      modifies this, handlers
      ensures Valid() && Compiles(List(), fmt)
      ensures EndOf(List()) == |fmt| || |List()| == 1024
    {
      hide Segment, TokenAt, KnownToken, FirstIndex, NameOf, Compiles, EndOf;
      NothingCompiled(fmt);
      count := 0;
      assert List() == [];
      var i: nat := 0;
      while i < |fmt|
        invariant Valid() && i <= |fmt| && Compiles(List(), fmt) && EndOf(List()) == i
      {
        var charsToStart := Find(fmt, i, START);
        var remaining := |fmt| - i;
        if charsToStart != Some(0) {
          var charsToCopy := if charsToStart.Some? then charsToStart.value else remaining;
          SegmentCases(fmt, i);
          var ok := AddCompiled(CopyFromOrig(i, i + charsToCopy), fmt);
          if !ok {
            return;
          }
          i := i + charsToCopy;
          continue;
        }
        var charsToEnd := Find(fmt, i, END);
        SegmentCases(fmt, i);
        if charsToEnd.None? {
          var ok := AddCompiled(CopyFromOrig(i, i + remaining), fmt);
          return;
        }
        var token := fmt[i + 1..i + charsToEnd.value];
        var t := FindTokenHandler(token);
        if t.None? {
          var ok := AddCompiled(CopyFromOrig(i, i + 1), fmt);
          if !ok {
            return;
          }
          i := i + 1;
        } else {
          TokenWidth(fmt, i);
          var ok := AddCompiled(ExpandToken(t.value), fmt);
          if !ok {
            return;
          }
          i := i + |token| + 2;
        }
      }
    }

    method AddCompiled(h: Handler, fmt: string) returns (ok: bool)
      requires Valid() && Compiles(List(), fmt) && 0 <= EndOf(List()) && Segment(h, fmt, EndOf(List()))
      modifies this, handlers
      ensures Valid() && Compiles(List(), fmt) && ok == (old(count) < MAX_HANDLERS)
      ensures EndOf(List()) == old(EndOf(List())) + (if ok then Width(h) else 0)
      ensures !ok ==> count == MAX_HANDLERS
    {
      ghost var before := List();
      ok := AddHandler(h);
      if ok {
        assert (before + [h])[..|before|] == before;
      }
    }

    /** Run one handler; the handler of a token for which `broken` holds, as when a time cannot be
        converted, returns NULL and appends nothing. */
    static method Append(h: Handler, fmt: string, env: Token -> string, broken: Token -> bool, output: CharArray)
      returns (ok: bool)
      requires Fits(h, fmt) && output.Valid()
      modifies output, output.buffer
      ensures output.Valid() && ok == !Breaks(h, broken)
      ensures output.Content() == old(output.Content()) + (if ok then Output(h, fmt, env) else "")
      ensures output.buffer == old(output.buffer) || fresh(output.buffer)
    {
      ok := true;
      if h.CopyFromOrig? {
        output.StrNCat(fmt[h.start..h.end]);
      } else if broken(h.token) {
        ok := false;
        assert output.Content() + "" == output.Content();
      } else {
        output.StrNCat(env(h.token));
      }
    }

    /** `rcutils_logging_format_message`: run the handlers in order, each appending to the output, up to
        the first that returns NULL; `done` handlers have run. */
    method FormatMessage(fmt: string, env: Token -> string, broken: Token -> bool, output: CharArray)
      returns (ret: Ret, ghost done: nat)
      requires Valid() && Compiles(List(), fmt) && output.Valid()
      modifies output, output.buffer
      ensures output.Valid() && Valid() && List() == old(List()) && done <= |List()|
      ensures (ret == Ok && done == |List()|) || (ret == Error && done < |List()| && Breaks(List()[done], broken))
      ensures forall n :: 0 <= n < done ==> !Breaks(List()[n], broken)
      ensures 0 <= EndOf(List()[..done]) <= |fmt|
      ensures output.Content() == old(output.Content()) + Expand(fmt[..EndOf(List()[..done])], env)
    {
      hide CharArray.Valid, CharArray.Content, Compiles, Expand, RunAll, Output, Fits, EndOf, AllFit, Breaks;
      ghost var list, before := List(), output.Content();
      CompilationIsExpansion(list, fmt, env);
      RunStart(list, fmt, env, before);
      for n := 0 to count
        invariant Valid() && List() == list && output.Valid()
        invariant output.buffer == old(output.buffer) || fresh(output.buffer)
        invariant AllFit(list[..n], fmt) && output.Content() == before + RunAll(list[..n], fmt, env)
        invariant forall i :: 0 <= i < n ==> !Breaks(list[i], broken)
      {
        assert handlers[n] == list[n];
        RunNext(list, n, fmt, env, before);
        var ok := Append(handlers[n], fmt, env, broken, output);
        if !ok {
          assert output.Content() == before + RunAll(list[..n], fmt, env) + "" == before + RunAll(list[..n], fmt, env);
          PrefixIsExpansion(list, n, fmt, env);
          return Error, n;
        }
      }
      PrefixIsExpansion(list, count, fmt, env);
      return Ok, count;
    }
  }

  predicate Breaks(h: Handler, broken: Token -> bool) {
    h.ExpandToken? && broken(h.token)
  }

  lemma {:induction false} CompilesFirst(list: seq<Handler>, n: nat, fmt: string)
    requires Compiles(list, fmt) && n <= |list|
    ensures Compiles(list[..n], fmt)
    decreases |list|
  {
    if n < |list| {
      CompilesFirst(list[..|list| - 1], n, fmt);
      assert list[..|list| - 1][..n] == list[..n];
    } else {
      assert list[..n] == list;
    }
  }

  lemma PrefixIsExpansion(list: seq<Handler>, n: nat, fmt: string, env: Token -> string)
    requires Compiles(list, fmt) && n <= |list|
    ensures 0 <= EndOf(list[..n]) <= |fmt| && AllFit(list[..n], fmt)
    ensures RunAll(list[..n], fmt, env) == Expand(fmt[..EndOf(list[..n])], env)
  {
    CompilesFirst(list, n, fmt);
    hide Compiles, RunAll, Expand, EndOf, AllFit;
    CompilationIsExpansion(list[..n], fmt, env);
  }

  lemma RunStart(list: seq<Handler>, fmt: string, env: Token -> string, before: string)
    ensures AllFit(list[..0], fmt) && before + RunAll(list[..0], fmt, env) == before
  {
  }

  lemma RunNext(list: seq<Handler>, n: nat, fmt: string, env: Token -> string, before: string)
    requires n < |list| && AllFit(list, fmt) && AllFit(list[..n], fmt)
    ensures Fits(list[n], fmt) && AllFit(list[..n + 1], fmt)
    ensures before + RunAll(list[..n + 1], fmt, env) == before + RunAll(list[..n], fmt, env) + Output(list[n], fmt, env)
  {
    assert list[n] in list;
    assert list[..n + 1] == list[..n] + [list[n]];
    RunOneMore(list[..n], list[n], fmt, env);
    Associative(before, RunAll(list[..n], fmt, env), Output(list[n], fmt, env));
  }

  lemma NothingCompiled(fmt: string)
    ensures Compiles([], fmt) && EndOf([]) == 0
  {
  }

  /** The cases of the parser. */
  lemma SegmentCases(fmt: string, i: nat)
    requires i < |fmt|
    ensures var s := FirstIndex(fmt, START, i); Segment(CopyFromOrig(i, s), fmt, i)
    ensures FirstIndex(fmt, END, i) == |fmt| ==> Segment(CopyFromOrig(i, |fmt|), fmt, i)
    ensures TokenAt(fmt, i).None? ==> Segment(CopyFromOrig(i, i + 1), fmt, i)
    ensures TokenAt(fmt, i).Some? ==> Segment(ExpandToken(TokenAt(fmt, i).value), fmt, i)
    ensures var j := FirstIndex(fmt, END, i);
            fmt[i] == START && j < |fmt| ==> i < j && TokenAt(fmt, i) == KnownToken(fmt[i + 1..j])
  {
  }
}

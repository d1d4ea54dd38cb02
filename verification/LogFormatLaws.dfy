/** What the expansion of a format string is, in the literal texts of the tokens and braces. */
module LogFormatLaws {
  import opened Wrappers
  import opened LogFormat

  /** The table of src/logging.c. */
  lemma TokenTexts()
    ensures KnownToken("severity") == Some(Severity)
    ensures KnownToken("name") == Some(Name)
    ensures KnownToken("message") == Some(Message)
    ensures KnownToken("function_name") == Some(FunctionName)
    ensures KnownToken("file_name") == Some(FileName)
    ensures KnownToken("time") == Some(Time)
    ensures KnownToken("date_time_with_ms") == Some(DateTimeWithMs)
    ensures KnownToken("time_as_nanoseconds") == Some(TimeAsNanoseconds)
    ensures KnownToken("line_number") == Some(LineNumber)
  {
    KnownTokenIs("severity", Severity);
    KnownTokenIs("name", Name);
    KnownTokenIs("message", Message);
    KnownTokenIs("function_name", FunctionName);
    KnownTokenIs("file_name", FileName);
    KnownTokenIs("time", Time);
    KnownTokenIs("date_time_with_ms", DateTimeWithMs);
    KnownTokenIs("time_as_nanoseconds", TimeAsNanoseconds);
    KnownTokenIs("line_number", LineNumber);
    hide KnownToken;
  }

  lemma NoOtherToken(text: string)
    requires text != "severity" && text != "name" && text != "message" && text != "function_name"
    requires text != "file_name" && text != "time" && text != "date_time_with_ms"
    requires text != "time_as_nanoseconds" && text != "line_number"
    ensures KnownToken(text) == None
  {
    LookupIs(text, 0);
    hide Lookup;
  }

  /** What a text between braces expands to, or `None` when it is not a token. */
  ghost function ValueOf(text: string, env: Token -> string): Option<string> {
    if text == "severity" then Some(env(Severity))
    else if text == "name" then Some(env(Name))
    else if text == "message" then Some(env(Message))
    else if text == "function_name" then Some(env(FunctionName))
    else if text == "file_name" then Some(env(FileName))
    else if text == "time" then Some(env(Time))
    else if text == "date_time_with_ms" then Some(env(DateTimeWithMs))
    else if text == "time_as_nanoseconds" then Some(env(TimeAsNanoseconds))
    else if text == "line_number" then Some(env(LineNumber))
    else None
  }

  lemma ValueIs(text: string, env: Token -> string)
    ensures ValueOf(text, env) == if KnownToken(text).Some? then Some(env(KnownToken(text).value)) else None
  {
    TokenTexts();
    hide KnownToken;
    if ValueOf(text, env) == None {
      NoOtherToken(text);
    }
  }

  // ----- the part after a position, by itself

  lemma {:induction false} FirstIndexShift(s: string, c: char, i: nat, k: nat)
    requires i <= k <= |s|
    ensures FirstIndex(s, c, k) == i + FirstIndex(s[i..], c, k - i)
    decreases |s| - k
  {
    if k < |s| && s[k] != c {
      FirstIndexShift(s, c, i, k + 1);
    }
  }

  lemma TokenAtShift(fmt: string, i: nat, k: nat)
    requires i <= k < |fmt|
    ensures TokenAt(fmt, k) == TokenAt(fmt[i..], k - i)
  {
    FirstIndexShift(fmt, '}', i, k);
    hide KnownToken;
    var j := FirstIndex(fmt, '}', k);
    hide FirstIndex;
    if fmt[k] == '{' && j < |fmt| {
      SliceOfRest(fmt, i, k + 1, j);
    }
  }

  lemma SliceOfRest(s: string, i: nat, k: nat, j: nat)
    requires i <= k <= j <= |s|
    ensures s[i..][k - i..j - i] == s[k..j]
  {
  }

  lemma {:induction false} ExpandShift(fmt: string, i: nat, k: nat, env: Token -> string)
    requires i <= k <= |fmt|
    ensures ExpandFrom(fmt, k, env) == ExpandFrom(fmt[i..], k - i, env)
    decreases |fmt| - k
  {
    hide TokenAt, FirstIndex, ExpandFrom;
    if k < |fmt| {
      TokenAtShift(fmt, i, k);
      if TokenAt(fmt, k).Some? {
        FirstIndexShift(fmt, '}', i, k);
        OneToken(fmt, k, env);
        OneToken(fmt[i..], k - i, env);
        ExpandShift(fmt, i, FirstIndex(fmt, '}', k) + 1, env);
      } else {
        OneLiteral(fmt, k, env);
        OneLiteral(fmt[i..], k - i, env);
        ExpandShift(fmt, i, k + 1, env);
      }
    } else {
      AtEnd(fmt, env);
      AtEnd(fmt[i..], env);
    }
  }

  lemma RestIs(fmt: string, i: nat, env: Token -> string)
    requires i <= |fmt|
    ensures ExpandFrom(fmt, i, env) == Expand(fmt[i..], env)
  {
    ExpandShift(fmt, i, i, env);
  }

  // ----- the laws

  /** A character other than `{` stands for itself. */
  lemma PlainCharacter(c: char, rest: string, env: Token -> string)
    requires c != '{'
    ensures Expand([c] + rest, env) == [c] + Expand(rest, env)
  {
    var fmt := [c] + rest;
    assert TokenAt(fmt, 0) == None;
    OneLiteral(fmt, 0, env);
    hide ExpandFrom, TokenAt;
    RestIs(fmt, 1, env);
    assert fmt[1..] == rest;
  }

  /** So does all that follows the last `}`. */
  lemma NoMoreTokens(rest: string, env: Token -> string)
    requires '}' !in rest
    ensures Expand("{" + rest, env) == "{" + rest
  {
    LiteralTail("{" + rest, 0, env);
    hide ExpandFrom;
    assert ("{" + rest)[0..] == "{" + rest;
  }

  lemma {:induction false} FirstIs(s: string, c: char, i: nat, j: nat)
    requires i <= j < |s| && s[j] == c && forall k :: i <= k < j ==> s[k] != c
    ensures FirstIndex(s, c, i) == j
    decreases j - i
  {
    if i < j {
      FirstIs(s, c, i + 1, j);
    }
  }

  /** A text in braces is replaced by its value when it is a token; otherwise the `{` stands for itself. */
  lemma TextInBraces(text: string, rest: string, env: Token -> string)
    requires '}' !in text
    ensures Expand("{" + text + "}" + rest, env) ==
            if ValueOf(text, env).Some? then ValueOf(text, env).value + Expand(rest, env)
            else "{" + Expand(text + "}" + rest, env)
  {
    var fmt := "{" + text + "}" + rest;
    FirstIs(fmt, '}', 0, |text| + 1);
    assert fmt[1..|text| + 1] == text;
    ValueIs(text, env);
    hide KnownToken, ValueOf, FirstIndex;
    assert TokenAt(fmt, 0) == KnownToken(text);
    hide TokenAt, ExpandFrom;
    if KnownToken(text).Some? {
      OneToken(fmt, 0, env);
      RestIs(fmt, |text| + 2, env);
      assert fmt[|text| + 2..] == rest;
    } else {
      OneLiteral(fmt, 0, env);
      RestIs(fmt, 1, env);
      assert fmt[1..] == text + "}" + rest;
    }
  }

  /** These laws, of any function on format strings. */
  ghost predicate Expands(f: string -> string, env: Token -> string) {
    && f("") == ""
    && (forall c: char, rest: string :: c != '{' ==> f([c] + rest) == [c] + f(rest))
    && (forall rest: string :: '}' !in rest ==> f("{" + rest) == "{" + rest)
    && (forall text: string, rest: string :: '}' !in text ==>
                                               f("{" + text + "}" + rest) ==
                                               if ValueOf(text, env).Some? then ValueOf(text, env).value + f(rest)
                                               else "{" + f(text + "}" + rest))
  }

  lemma ExpandObeysLaws(env: Token -> string)
    ensures Expands(fmt => Expand(fmt, env), env)
  {
    hide Expand, ValueOf;
    var f := fmt => Expand(fmt, env);
    assert f("") == "" by {
      NothingExpands(env);
    }
    forall c: char, rest: string | c != '{' ensures f([c] + rest) == [c] + f(rest) {
      PlainCharacter(c, rest, env);
    }
    forall rest: string | '}' !in rest ensures f("{" + rest) == "{" + rest {
      NoMoreTokens(rest, env);
    }
    forall text: string, rest: string | '}' !in text
      ensures f("{" + text + "}" + rest) ==
              if ValueOf(text, env).Some? then ValueOf(text, env).value + f(rest) else "{" + f(text + "}" + rest)
    {
      TextInBraces(text, rest, env);
    }
  }

  lemma NothingExpands(env: Token -> string)
    ensures Expand("", env) == ""
  {
  }

  /** The laws leave no choice: whatever obeys them is the expansion. */
  lemma {:induction false} LawsDetermine(f: string -> string, env: Token -> string, fmt: string)
    requires Expands(f, env)
    ensures f(fmt) == Expand(fmt, env)
    decreases |fmt|
  {
    hide Expand, ValueOf;
    if fmt == "" {
      NothingExpands(env);
    } else if fmt[0] != '{' {
      assert fmt == [fmt[0]] + fmt[1..];
      LawsDetermine(f, env, fmt[1..]);
      PlainCharacter(fmt[0], fmt[1..], env);
    } else if '}' !in fmt[1..] {
      assert fmt == "{" + fmt[1..];
      NoMoreTokens(fmt[1..], env);
    } else {
      var j := FirstIndex(fmt, '}', 1);
      var text, rest := fmt[1..j], fmt[j + 1..];
      CutToken(fmt, j);
      LawOfBraces(f, env, text, rest);
      hide Expands;
      TextInBraces(text, rest, env);
      LawsDetermine(f, env, rest);
      LawsDetermine(f, env, text + "}" + rest);
    }
  }

  lemma CutToken(fmt: string, j: nat)
    requires 1 <= j < |fmt| && fmt[0] == '{' && fmt[j] == '}'
    ensures fmt == "{" + fmt[1..j] + "}" + fmt[j + 1..]
  {
  }

  lemma LawOfBraces(f: string -> string, env: Token -> string, text: string, rest: string)
    requires Expands(f, env) && '}' !in text
    ensures f("{" + text + "}" + rest) ==
            if ValueOf(text, env).Some? then ValueOf(text, env).value + f(rest) else "{" + f(text + "}" + rest)
  {
    hide ValueOf;
  }
}

/** The thread-local error state of src/error_handling.c with its lazily formatted string.

    A C string is a `string` without NUL; where the source keeps one in a buffer of fixed size,
    the buffer is an array.
 */
module ErrorStates {
  import opened Numbers
  import opened Decimals

  const MESSAGE_MAX: nat := 768
  const FILE_MAX: nat := 229
  const STRING_MAX: nat := 1024
  const OUTPUT_MAX: nat := 4096

  ghost predicate CString(s: string) {
    forall i :: 0 <= i < |s| ==> s[i] != '\0'
  }

  /** What is left of `s` in a buffer of `size` characters. */
  function Truncate(s: string, size: nat): string
    requires size > 0
  {
    if |s| >= size then s[..size - 1] else s
  }

  /** `a` holds the string `s` from `offset` on, and its NUL. */
  ghost predicate Holds(a: array<char>, offset: nat, s: string)
    reads a
  {
    offset + |s| < a.Length && a[offset..offset + |s|] == s && a[offset + |s|] == '\0' && CString(s)
  }

  method CopyString(dst: array<char>, offset: nat, dstSize: nat, src: string) returns (written: nat)
    requires dstSize > 0 && offset + dstSize <= dst.Length && CString(src)
    modifies dst
    ensures written == |Truncate(src, dstSize)| && Holds(dst, offset, Truncate(src, dstSize))
    ensures dst[..offset] == old(dst[..offset])
  {
    written := |src|;
    if |src| >= dstSize {
      written := dstSize - 1;
    }
    forall i | 0 <= i < written {
      dst[offset + i] := src[i];
    }
    dst[offset + written] := '\0';
  }

  /** The string in `a`, up to its NUL. */
  method ReadString(a: array<char>, ghost s: string) returns (r: string)
    requires Holds(a, 0, s)
    ensures r == s
  {
    var n: nat := 0;
    while a[n] != '\0'
      invariant n <= |s| && a[0..|s|] == s
      decreases |s| - n
    {
      n := n + 1;
    }
    r := a[..n];
  }

  // ----- formatting

  datatype State = State(message: string, file: string, line: nat)

  ghost predicate ValidState(s: State) {
    |s.message| < MESSAGE_MAX && |s.file| < FILE_MAX && s.line < SIZE_MODULUS && CString(s.message) && CString(s.file)
  }

  const AT := ", at "
  const COLON := ":"

  function Formatted(s: State): string {
    s.message + AT + s.file + COLON + Decimal(s.line)
  }

  /** Piece by piece: `text` is in the buffer and `more` is appended, without truncation. */
  method Append(dst: array<char>, offset: nat, dstSize: nat, more: string, ghost text: string) returns (newOffset: nat)
    requires offset + dstSize <= dst.Length && |text| == offset && dst[..offset] == text && CString(text)
    requires |more| < dstSize && CString(more)
    modifies dst
    ensures newOffset == offset + |more| && |text + more| == newOffset
    ensures dst[..newOffset] == text + more && CString(text + more) && Holds(dst, 0, text + more)
  {
    var written := CopyString(dst, offset, dstSize, more);
    newOffset := offset + written;
    Joined(dst, offset, newOffset);
  }

  lemma Joined(a: array<char>, i: nat, j: nat)
    requires i <= j <= a.Length
    ensures a[..i] + a[i..j] == a[..j]
  {
  }

  lemma FormattedMeans(s: State)
    ensures Formatted(s) == s.message + ", at " + s.file + ":" + Decimal(s.line)
  {
  }

  lemma FormattedFits(s: State)
    requires ValidState(s)
    ensures |AT| == 5 && |COLON| == 1 && CString(AT) && CString(COLON)
    ensures |Decimal(s.line)| <= 20 && CString(Decimal(s.line))
    ensures |s.message| + 5 + |s.file| + 1 + |Decimal(s.line)| < 1022
    ensures |Formatted(s)| < 1022 && CString(Formatted(s))
  {
    Decimal64(s.line);
    DecimalIsCanonical(s.line);
    DigitsAreNotNul(Decimal(s.line));
  }

  method FormatErrorString(text: array<char>, state: State)
    requires text.Length == STRING_MAX && ValidState(state)
    modifies text
    ensures Holds(text, 0, Formatted(state))
    ensures |Formatted(state)| < 1022
  {
    hide Decimal, AT, COLON, Holds;
    FormattedFits(state);
    var offset := Append(text, 0, STRING_MAX, state.message, "");
    ghost var s := "" + state.message;
    offset := Append(text, offset, STRING_MAX - offset, AT, s);
    s := s + AT;
    offset := Append(text, offset, STRING_MAX - offset, state.file, s);
    s := s + state.file;
    offset := Append(text, offset, STRING_MAX - offset, COLON, s);
    s := s + COLON;
    var buffer := new char[21];
    ConvertUint64IntoCStr(state.line, buffer);
    Prefixed(buffer, Decimal(state.line));
    var digits := ReadString(buffer, Decimal(state.line));
    offset := Append(text, offset, STRING_MAX - offset, digits, s);
    Concatenated(state);
  }

  lemma Prefixed(a: array<char>, s: string)
    requires |s| < a.Length && a[..|s|] == s && a[|s|] == '\0' && CString(s)
    ensures Holds(a, 0, s)
  {
    assert a[0..0 + |s|] == a[..|s|];
  }

  lemma Concatenated(s: State)
    ensures "" + s.message + AT + s.file + COLON + Decimal(s.line) == Formatted(s)
  {
    assert "" + s.message == s.message;
  }

  // ----- the state

  /** The comparison of the first `|s|` characters, as far as 1024 of them. */
  predicate SameString(s: string, t: string) {
    var count := if |s| < STRING_MAX then |s| else STRING_MAX;
    count <= |t| && s[..count] == t[..count]
  }

  /** A message of at most 1024 characters is compared as a prefix. */
  lemma SameStringMeans(s: string, t: string)
    ensures |s| <= 1024 ==> (SameString(s, t) <==> s <= t)
    ensures |s| > 1024 ==> (SameString(s, t) <==> |t| >= 1024 && s[..1024] == t[..1024])
  {
  }

  /** The new message is neither that of the old error nor its text, which is there only if it was
      formatted before. */
  predicate Differs(message: string, was: State, formatted: bool) {
    !SameString(message, if formatted then Formatted(was) else "") && !SameString(message, was.message)
  }

  const OPENING_1 := "\n>>> [rcutils|error_handling.c:108] "
  const OPENING_2 := "rcutils_set_error_state()\n"
  const OPENING_3 := "This error state is being overwritten:\n\n  '"
  const OPENING := OPENING_1 + OPENING_2 + OPENING_3
  const BETWEEN := "'\n\nwith this new error message:\n\n  '"
  const CLOSING_1 := "'\n\nrcutils_reset_error() should be called "
  const CLOSING_2 := "after error handling to avoid this.\n<<<\n"
  const CLOSING := CLOSING_1 + CLOSING_2
  const NOT_SET := "error not set"

  /** The whole warning about an overwritten error. */
  function Overwriting(was: State, now: State): string {
    OPENING + Formatted(was) + BETWEEN + Formatted(now) + CLOSING
  }

  function Copied(message: string, file: string, line: nat): State {
    State(Truncate(message, MESSAGE_MAX), Truncate(file, FILE_MAX), line)
  }

  /** The message keeps its first 767 characters, the file name its first 228. */
  lemma CopiedMeans(message: string, file: string, line: nat)
    ensures Copied(message, file, line).line == line
    ensures Copied(message, file, line).message == if |message| <= 767 then message else message[..767]
    ensures Copied(message, file, line).file == if |file| <= 228 then file else file[..228]
  {
  }

  /** The warning in full. */
  lemma OverwritingMeans(was: State, now: State)
    ensures Overwriting(was, now) ==
            "\n>>> [rcutils|error_handling.c:108] " + "rcutils_set_error_state()\n"
            + "This error state is being overwritten:\n\n  '" + Formatted(was)
            + "'\n\nwith this new error message:\n\n  '" + Formatted(now)
            + "'\n\nrcutils_reset_error() should be called " + "after error handling to avoid this.\n<<<\n"
  {
    hide Formatted;
  }

  class ErrorState {
    var isSet: bool
    var isFormatted: bool
    var state: State
    const text: array<char>

    /** The text is formatted lazily: it is right when the flag says so. */
    ghost predicate Valid()
      reads this, text
    {
      ValidState(state) && text.Length == STRING_MAX
      && (isFormatted ==> isSet && Holds(text, 0, Formatted(state)))
      && (!isFormatted ==> Holds(text, 0, ""))
    }

    constructor ()
      ensures Valid() && fresh(text) && !isSet
    {
      isSet, isFormatted, state := false, false, State("", "", 0);
      text := new char[STRING_MAX](_ => '\0');
    }

    method ClearText()
      modifies text
      requires text.Length == STRING_MAX
      ensures Holds(text, 0, "")
    {
      forall i | 0 <= i < text.Length {
        text[i] := '\0';
      }
    }

    /** However often it is called: the error that was set last, in full. */
    method GetErrorString() returns (s: string)
      requires Valid()
      modifies this`isFormatted, text
      ensures Valid() && isSet ==> isFormatted
      ensures Valid()
      ensures s ==
              if isSet then state.message + ", at " + state.file + ":" + Decimal(state.line) else "error not set"
      ensures isSet ==> |s| < 1022 && CString(s)
    {
      FormattedFits(state);
      FormattedMeans(state);
      if !isSet {
        return NOT_SET;
      }
      if !isFormatted {
        FormatErrorString(text, state);
        isFormatted := true;
      }
      s := ReadString(text, Formatted(state));
    }

    method ResetError()
      requires Valid()
      modifies this, text
      ensures Valid() && !isSet && !isFormatted && state == State("", "", 0)
    {
      state := State("", "", 0);
      isFormatted := false;
      ClearText();
      isSet := false;
    }

    /** The warning in its buffer.  All of it fits, so none of the early exits is taken. */
    method FormatOverwriting(output: array<char>, newState: State)
      requires Valid() && isSet && ValidState(newState)
      requires output.Length == OUTPUT_MAX && output != text
      modifies this`isFormatted, text, output
      ensures Valid() && isSet
      ensures Holds(output, 0, Overwriting(state, newState))
    {
      hide Formatted, Holds, OPENING, BETWEEN, CLOSING;
      FixedTexts();
      FormattedFits(state);
      FormattedFits(newState);
      var offset := Append(output, 0, OUTPUT_MAX, OPENING, "");
      ghost var s := "" + OPENING;
      var oldString := GetErrorString();
      assert oldString == Formatted(state) by {
        FormattedMeans(state);
      }
      offset := Append(output, offset, STRING_MAX, oldString, s);
      s := s + Formatted(state);
      offset := Append(output, offset, OUTPUT_MAX - offset, BETWEEN, s);
      s := s + BETWEEN;
      var newText := new char[STRING_MAX];
      FormatErrorString(newText, newState);
      var newString := ReadString(newText, Formatted(newState));
      offset := Append(output, offset, STRING_MAX, newString, s);
      s := s + Formatted(newState);
      offset := Append(output, offset, OUTPUT_MAX - offset, CLOSING, s);
      OverwritingIs(state, newState);
    }

    /** `warning` is what goes to the error stream: only when an error is replaced by a different one. */
    method SetErrorState(message: string, file: string, line: nat) returns (warning: string)
      requires Valid() && CString(message) && CString(file) && line < SIZE_MODULUS
      modifies this, text
      ensures Valid() && isSet && state == Copied(message, file, line) && !isFormatted
      ensures state.message == if |message| <= 767 then message else message[..767]
      ensures state.file == if |file| <= 228 then file else file[..228]
      ensures state.line == line
      ensures warning ==
              if old(isSet) && Differs(message, old(state), old(isFormatted)) then Overwriting(old(state), state)
              else ""
    {
      hide Holds, Formatted, Overwriting, SameString, Truncate, CString;
      CopiedIsValid(message, file, line);
      CopiedMeans(message, file, line);
      var messageBuffer, fileBuffer := new char[MESSAGE_MAX], new char[FILE_MAX];
      var _ := CopyString(messageBuffer, 0, MESSAGE_MAX, message);
      var _ := CopyString(fileBuffer, 0, FILE_MAX, file);
      var newMessage := ReadString(messageBuffer, Truncate(message, MESSAGE_MAX));
      var newFile := ReadString(fileBuffer, Truncate(file, FILE_MAX));
      var newState := State(newMessage, newFile, line);
      warning := "";
      if isSet {
        var was := ReadString(text, if isFormatted then Formatted(state) else "");
        if !SameString(message, was) && !SameString(message, state.message) {
          var output := new char[OUTPUT_MAX];
          FormatOverwriting(output, newState);
          warning := ReadString(output, Overwriting(state, newState));
        }
      }
      state := newState;
      isFormatted := false;
      ClearText();
      isSet := true;
    }
  }

  lemma CopiedIsValid(message: string, file: string, line: nat)
    requires CString(message) && CString(file) && line < SIZE_MODULUS
    ensures ValidState(Copied(message, file, line))
  {
  }

  lemma FixedTexts()
    ensures |OPENING| < 200 && |BETWEEN| < 100 && |CLOSING| < 100
    ensures CString(OPENING) && CString(BETWEEN) && CString(CLOSING)
  {
    OpeningPieces();
    ClosingPieces();
    hide OPENING_1, OPENING_2, OPENING_3, CLOSING_1, CLOSING_2;
  }

  lemma OpeningPieces()
    ensures |OPENING_1| < 50 && CString(OPENING_1)
    ensures |OPENING_2| < 50 && CString(OPENING_2)
    ensures |OPENING_3| < 50 && CString(OPENING_3)
  {
  }

  lemma ClosingPieces()
    ensures |CLOSING_1| < 50 && CString(CLOSING_1)
    ensures |CLOSING_2| < 50 && CString(CLOSING_2)
  {
  }

  lemma OverwritingIs(was: State, now: State)
    ensures "" + OPENING + Formatted(was) + BETWEEN + Formatted(now) + CLOSING == Overwriting(was, now)
  {
    hide OPENING, Formatted, BETWEEN, CLOSING;
    assert "" + OPENING == OPENING;
  }

  /** The warning depends on the old error having been formatted exactly when the new message is no
      prefix of the old one, but a non-empty prefix of its text. */
  lemma WhenFormattingMatters(message: string, was: State)
    ensures Differs(message, was, false) != Differs(message, was, true) <==>
            message != "" && !SameString(message, was.message) && SameString(message, Formatted(was))
  {
    hide Formatted;
  }

  /** The old message with ", at " behind it is such a message. */
  lemma MessageWithAt(was: State)
    requires |was.message| + 5 < STRING_MAX
    ensures Differs(was.message + AT, was, false) && !Differs(was.message + AT, was, true)
  {
    hide Decimal;
    var message := was.message + AT;
    assert Formatted(was)[..|message|] == message;
    assert !SameString(message, was.message);
  }

  /** The same two errors, with a warning and, the first being read in between, without one. */
  method SeenOrUnseen() returns (unseen: string, seen: string)
    ensures |unseen| > 0 && seen == ""
  {
    hide Overwriting, Differs, Formatted, CString, Truncate;
    var first := "failed";
    var was := Copied(first, "a.c", 1);
    ShortStrings(first);
    MessageWithAt(was);
    OverwritingIsLong(was, Copied(first + AT, "b.c", 2));

    var a := new ErrorState();
    var none := a.SetErrorState(first, "a.c", 1);
    unseen := a.SetErrorState(first + AT, "b.c", 2);

    var b := new ErrorState();
    none := b.SetErrorState(first, "a.c", 1);
    var text := b.GetErrorString();
    seen := b.SetErrorState(first + AT, "b.c", 2);
  }

  lemma ShortStrings(first: string)
    requires first == "failed"
    ensures CString(first) && CString(first + AT) && CString("a.c") && CString("b.c")
    ensures Truncate(first, MESSAGE_MAX) == first
  {
  }

  lemma OverwritingIsLong(was: State, now: State)
    ensures |Overwriting(was, now)| > 0
  {
    hide Formatted, OPENING_2, OPENING_3, BETWEEN, CLOSING;
  }
}

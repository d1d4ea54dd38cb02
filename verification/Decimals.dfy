/** The decimal printer of src/error_handling_helpers.h, against a recursive one and a parser. */
module Decimals {
  import opened Numbers

  function Digit(d: nat): char
    requires d < 10
  {
    '0' + (d as char)
  }

  predicate IsDigit(c: char) {
    '0' <= c <= '9'
  }

  function DigitValue(c: char): nat
    requires IsDigit(c)
  {
    (c - '0') as nat
  }

  function Decimal(n: nat): string {
    if n < 10 then [Digit(n)] else Decimal(n / 10) + [Digit(n % 10)]
  }

  predicate AllDigits(s: string) {
    forall i :: 0 <= i < |s| ==> IsDigit(s[i])
  }

  function Parse(s: string): nat
    requires AllDigits(s)
  {
    if s == [] then 0 else Parse(s[..|s| - 1]) * 10 + DigitValue(s[|s| - 1])
  }

  /** Digits, at least one, and no leading zero unless it is the only digit. */
  predicate Canonical(s: string) {
    s != [] && AllDigits(s) && (|s| > 1 ==> s[0] != '0')
  }

  lemma {:induction false} DecimalIsCanonical(n: nat)
    ensures Canonical(Decimal(n)) && (n > 0 ==> Decimal(n)[0] != '0')
  {
    if n >= 10 {
      DecimalIsCanonical(n / 10);
    }
  }

  /** `n` without its last `k` digits. */
  function Shifted(n: nat, k: nat): nat {
    if k == 0 then n else Shifted(n / 10, k - 1)
  }

  lemma DigitMeans(d: nat)
    requires d < 10
    ensures Digit(d) == "0123456789"[d]
  {
  }

  /** The character `k` places from the right is the digit of that place; the first one is not a needless 0. */
  lemma {:induction false} PlaceValue(n: nat, k: nat)
    ensures k < |Decimal(n)| <==> k == 0 || Shifted(n, k) > 0
    ensures k < |Decimal(n)| ==> Decimal(n)[|Decimal(n)| - 1 - k] == "0123456789"[Shifted(n, k) % 10]
  {
    hide Digit;
    if n < 10 {
      DigitMeans(n);
      ShiftedSmall(n, k);
    } else {
      DigitMeans(n % 10);
      if k > 0 {
        PlaceValue(n / 10, k - 1);
      }
    }
  }

  lemma {:induction false} ShiftedSmall(n: nat, k: nat)
    requires n < 10
    ensures k > 0 ==> Shifted(n, k) == 0
  {
    if k > 1 {
      ShiftedSmall(n / 10, k - 1);
    }
  }

  /** Parsing what was printed gives the number back. */
  lemma {:induction false} ParseDecimal(n: nat)
    ensures Canonical(Decimal(n)) && Parse(Decimal(n)) == n
  {
    DecimalIsCanonical(n);
    if n >= 10 {
      ParseDecimal(n / 10);
      assert Decimal(n)[..|Decimal(n)| - 1] == Decimal(n / 10);
    }
  }

  /** Printing what was parsed gives the canonical text back: it is the only one for its number. */
  lemma {:induction false} DecimalParse(s: string)
    requires Canonical(s)
    ensures Decimal(Parse(s)) == s
    ensures |s| > 1 ==> Parse(s) >= 10
  {
    var init, last := s[..|s| - 1], DigitValue(s[|s| - 1]);
    if |s| > 1 {
      DecimalParse(init);
      LeadingDigitCounts(init);
      assert Parse(s) / 10 == Parse(init) && Parse(s) % 10 == last;
      assert s == init + [Digit(last)];
    } else {
      assert init == [];
      assert s == [Digit(last)];
    }
  }

  lemma {:induction false} LeadingDigitCounts(s: string)
    requires s != [] && AllDigits(s) && s[0] != '0'
    ensures Parse(s) > 0
  {
    if |s| > 1 {
      LeadingDigitCounts(s[..|s| - 1]);
    }
  }

  function Pow10(k: nat): nat {
    if k == 0 then 1 else 10 * Pow10(k - 1)
  }

  lemma {:induction false} DecimalLength(n: nat, k: nat)
    requires k > 0 && n < Pow10(k)
    ensures |Decimal(n)| <= k
  {
    if n >= 10 {
      DecimalLength(n / 10, k - 1);
    }
  }

  /** A 64-bit number has at most 20 digits. */
  lemma Decimal64(n: nat)
    requires n < SIZE_MODULUS
    ensures |Decimal(n)| <= 20
  {
    assert Pow10(5) == 100_000;
    Pow10Adds(5, 5);
    Pow10Adds(10, 10);
    DecimalLength(n, 20);
  }

  lemma {:induction false} Pow10Adds(a: nat, b: nat)
    ensures Pow10(a + b) == Pow10(a) * Pow10(b)
  {
    if a > 0 {
      Pow10Adds(a - 1, b);
    }
  }

  // ----- the in-place algorithm

  function Reversed(s: string): string {
    if s == [] then [] else Reversed(s[1..]) + [s[0]]
  }

  lemma {:induction false} ReversedAt(s: string, k: nat)
    requires k < |s|
    ensures |Reversed(s)| == |s| && Reversed(s)[k] == s[|s| - 1 - k]
  {
    if |s| > 1 {
      ReversedAt(s[1..], if k < |s| - 1 then k else 0);
    }
  }

  lemma {:induction false} ReversedSnoc(s: string, c: char)
    ensures Reversed(s + [c]) == [c] + Reversed(s)
  {
    if s != [] {
      ReversedSnoc(s[1..], c);
      assert (s + [c])[1..] == s[1..] + [c];
    }
  }

  lemma IsReversed(s: string, t: string)
    requires |s| == |t| && forall k :: 0 <= k < |s| ==> t[k] == s[|s| - 1 - k]
    ensures t == Reversed(s)
  {
    if s != [] {
      ReversedAt(s, 0);
    }
    forall k | 0 <= k < |s| ensures |Reversed(s)| == |s| && Reversed(s)[k] == t[k] {
      ReversedAt(s, k);
    }
  }

  method ReverseStr(a: array<char>, len: nat)
    requires len <= a.Length
    modifies a
    ensures a[..len] == Reversed(old(a[..len]))
    ensures a[len..] == old(a[len..])
  {
    if len == 0 {
      return;
    }
    var i: nat, j: nat := 0, len - 1;
    while i < j
      invariant i + j == len - 1 && i <= j + 1
      invariant forall k :: 0 <= k < i || j < k < len ==> a[k] == old(a[len - 1 - k])
      invariant forall k :: i <= k <= j || len <= k < a.Length ==> a[k] == old(a[k])
      decreases j + 1 - i
    {
      var c := a[i];
      a[i] := a[j];
      a[j] := c;
      i, j := i + 1, j - 1;
    }
    IsReversed(old(a[..len]), a[..len]);
  }

  /** The length of the string in `a`, at most `limit`. */
  method StrNLen(a: array<char>, limit: nat) returns (n: nat)
    requires limit <= a.Length
    ensures n <= limit && (forall k :: 0 <= k < n ==> a[k] != '\0') && (n < limit ==> a[n] == '\0')
  {
    n := 0;
    while n < limit && a[n] != '\0'
      invariant n <= limit && forall k :: 0 <= k < n ==> a[k] != '\0'
    {
      n := n + 1;
    }
  }

  lemma DigitsAreNotNul(s: string)
    requires AllDigits(s)
    ensures forall i :: 0 <= i < |s| ==> s[i] != '\0'
  {
  }

  /** What the digit loop has written when `n` is left of `number`. */
  ghost predicate Printed(number: nat, n: nat, written: string) {
    && number > 0 && AllDigits(written)
    && Decimal(number) == (if n == 0 then [] else Decimal(n)) + Reversed(written)
  }

  lemma PrintedStep(number: nat, n: nat, written: string)
    requires n > 0 && Printed(number, n, written)
    ensures Printed(number, n / 10, written + [Digit(n % 10)])
  {
    ReversedSnoc(written, Digit(n % 10));
    if n >= 10 {
      assert Decimal(n / 10) + ([Digit(n % 10)] + Reversed(written)) == Decimal(n) + Reversed(written);
    }
  }

  lemma {:induction false} ReversedLength(s: string)
    ensures |Reversed(s)| == |s|
  {
    if s != [] {
      ReversedLength(s[1..]);
    }
  }

  lemma {:induction false} PrintedLength(number: nat, n: nat, written: string)
    requires number < SIZE_MODULUS && Printed(number, n, written)
    ensures |written| + (if n > 0 then 1 else 0) <= 20
  {
    Decimal64(number);
    ReversedLength(written);
    DecimalIsCanonical(n);
  }

  method ConvertUint64IntoCStr(number: nat, buffer: array<char>)
    requires number < SIZE_MODULUS && buffer.Length >= 21
    modifies buffer
    ensures |Decimal(number)| <= 20
    ensures buffer[..|Decimal(number)|] == Decimal(number) && buffer[|Decimal(number)|] == '\0'
  {
    Decimal64(number);
    if number == 0 {
      buffer[0] := '0';
      buffer[1] := '\0';
      return;
    }
    var i: nat, n := 0, number;
    hide Decimal, Reversed, Printed;
    PrintedNone(number);
    while n != 0
      invariant i <= 20 && Printed(number, n, buffer[..i])
      decreases n
    {
      PrintedLength(number, n, buffer[..i]);
      PrintedStep(number, n, buffer[..i]);
      ghost var written := buffer[..i];
      buffer[i] := Digit(n % 10);
      assert buffer[..i + 1] == written + [Digit(n % 10)];
      i := i + 1;
      n := n / 10;
    }
    ghost var written := buffer[..i];
    AllPrinted(number, written);
    Terminate(buffer, i);
  }

  /** The terminating NUL, and the reversal of what stands before it. */
  method Terminate(buffer: array<char>, i: nat)
    requires buffer.Length >= 21 && i <= 20 && AllDigits(buffer[..i])
    modifies buffer
    ensures buffer[..i] == Reversed(old(buffer[..i])) && buffer[i] == '\0'
  {
    hide Reversed;
    ghost var written := buffer[..i];
    buffer[i] := '\0';
    assert buffer[..i] == written;
    DigitsAreNotNul(written);
    var len := StrNLen(buffer, 21);
    assert len == i by {
      assert forall k :: 0 <= k < i ==> buffer[k] == written[k];
    }
    ghost var rest := buffer[i..];
    ReverseStr(buffer, len);
    assert buffer[i] == buffer[i..][0] == rest[0];
  }

  lemma AllPrinted(number: nat, written: string)
    requires Printed(number, 0, written)
    ensures Reversed(written) == Decimal(number) && |written| == |Decimal(number)| && AllDigits(written)
  {
    ReversedLength(written);
  }

  lemma PrintedNone(number: nat)
    requires number > 0
    ensures Printed(number, number, [])
  {
    assert Decimal(number) + Reversed([]) == Decimal(number);
  }
}

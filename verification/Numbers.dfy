/** src/lib/integer.c and terminal_print_hex: number printers and parsers, and that they undo each other. */
module Numbers {

  import opened Machine
  import opened CStrings

  const INT_MAX: int := 0x7FFF_FFFF

  // ---- Decimal ------------------------------------------------------------------------------

  function Digit(d: int): (c: char)
    requires 0 <= d < 10
    ensures '0' <= c <= '9' && c as int - '0' as int == d
  {
    (d + '0' as int) as char
  }

  /** The decimal digits of n, none for 0. */
  function Digits(n: nat): string {
    if n == 0 then "" else Digits(n / 10) + [Digit(n % 10)]
  }

  /** n as itoa prints it. */
  function Decimal(n: int): string {
    if n == 0 then "0" else if n < 0 then "-" + Digits(-n) else Digits(n)
  }

  predicate IsDigits(s: string) {
    forall i :: 0 <= i < |s| ==> '0' <= s[i] <= '9'
  }

  /** The number a digit string denotes. */
  function Value(s: string): nat
    requires IsDigits(s)
  {
    if s == "" then 0 else Value(s[..|s| - 1]) * 10 + (s[|s| - 1] as int - '0' as int)
  }

  lemma {:induction false} ValueOfDigits(n: nat)
    ensures IsDigits(Digits(n)) && Value(Digits(n)) == n
  {
    if n > 0 {
      ValueOfDigits(n / 10);
      assert Digits(n)[..|Digits(n)| - 1] == Digits(n / 10);
    }
  }

  function Pow10(k: nat): nat {
    if k == 0 then 1 else 10 * Pow10(k - 1)
  }

  lemma {:induction false} DigitCount(n: nat, k: nat)
    requires n < Pow10(k)
    ensures |Digits(n)| <= k
  {
    if n > 0 {
      assert k > 0;
      DigitCount(n / 10, k - 1);
    }
  }

  lemma DecimalFits(n: int)
    requires -INT_MAX <= n <= INT_MAX
    ensures 1 <= |Decimal(n)| <= 11 && NUL !in Decimal(n)
    ensures |Digits(if n < 0 then -n else n)| <= 10
  {
    var m := if n < 0 then -n else n;
    assert Pow10(10) == 10_000_000_000 by {
      assert Pow10(5) == 100_000;
      assert Pow10(6) == 1_000_000 && Pow10(8) == 100_000_000;
    }
    DigitCount(m, 10);
    ValueOfDigits(m);
    assert forall i :: 0 <= i < |Digits(m)| ==> Digits(m)[i] != NUL;
  }

  function Reversed(s: string): (r: string)
    ensures |r| == |s|
    ensures forall i :: 0 <= i < |s| ==> r[i] == s[|s| - 1 - i]
  {
    seq(|s|, i requires 0 <= i < |s| => s[|s| - 1 - i])
  }

  lemma ReversedMore(s: string, c: char)
    ensures Reversed(s + [c]) == [c] + Reversed(s)
  {
  }

  /** itoa's digit loop, last digit first. */
  method WriteDigits(m: nat, buffer: array<char>) returns (i: nat)
    requires |Digits(m)| <= 10 && buffer.Length >= 12
    modifies buffer
    ensures i == |Digits(m)| && Digits(m) == Reversed(buffer[..i])
  {
    i := 0;
    var n := m;
    while n > 0
      invariant 0 <= n && i + |Digits(n)| == |Digits(m)|
      invariant Digits(m) == Digits(n) + Reversed(buffer[..i])
    {
      assert Digits(n) == Digits(n / 10) + [Digit(n % 10)];
      ReversedMore(buffer[..i], Digit(n % 10));
      buffer[i] := Digit(n % 10);
      assert buffer[..i + 1] == buffer[..i] + [buffer[i]];
      i := i + 1;
      n := n / 10;
    }
  }

  /** itoa: the digits from the last to the first, the sign, then reversal in place. */
  method Itoa(nb: int, buffer: array<char>)
    requires -INT_MAX <= nb <= INT_MAX && buffer.Length >= 12
    modifies buffer
    ensures Terminated(buffer[..]) && Str(buffer[..]) == Decimal(nb)
  {
    DecimalFits(nb);
    var negative := nb < 0;
    var n := if negative then -nb else nb;
    if n == 0 {
      buffer[0] := '0';
      buffer[1] := NUL;
      StrIs(buffer[..], "0");
      return;
    }
    var i := WriteDigits(n, buffer);
    hide Digits, Reversed;
    i := PutSign(buffer, i, nb);
    ReversedBack(buffer[..i], Decimal(nb));
    ReverseInPlace(buffer, i);
    assert forall k :: 0 <= k < i ==> buffer[k] == buffer[..i][k];
    StrIs(buffer[..], Decimal(nb));
  }

  /** itoa's sign, behind the digits it will stand in front of, and the NUL. */
  method PutSign(buffer: array<char>, i: nat, nb: int) returns (n: nat)
    requires nb != 0 && buffer.Length >= 12 && i <= 10
    requires Digits(if nb < 0 then -nb else nb) == Reversed(buffer[..i])
    modifies buffer
    ensures n < buffer.Length && buffer[n] == NUL && Decimal(nb) == Reversed(buffer[..n])
  {
    hide Digits, Reversed;
    n := i;
    if nb < 0 {
      ReversedMore(buffer[..i], '-');
      buffer[n] := '-';
      assert buffer[..n + 1] == buffer[..n] + [buffer[n]];
      n := n + 1;
    }
    ghost var was := buffer[..n];
    buffer[n] := NUL;
    assert buffer[..n] == was;
  }

  lemma ReversedBack(s: string, text: string)
    requires text == Reversed(s) && NUL !in text
    ensures Reversed(s) == text && |s| == |text| && NUL !in s
  {
    forall k | 0 <= k < |s|
      ensures s[k] != NUL
    {
      assert s[k] == text[|s| - 1 - k];
    }
  }

  /** itoa's last loop. */
  method ReverseInPlace(buffer: array<char>, len: nat)
    requires len < buffer.Length && buffer[len] == NUL && NUL !in buffer[..len]
    modifies buffer
    ensures buffer[..len] == Reversed(old(buffer[..len])) && buffer[len] == NUL
  {
    ghost var was := buffer[..len];
    var i := 0;
    var n := LenOf(buffer, len);
    while i < n / 2
      invariant 0 <= i <= len / 2 && n == len
      invariant buffer[len] == NUL
      invariant forall k :: 0 <= k < i ==> buffer[k] == was[len - 1 - k] && buffer[len - 1 - k] == was[k]
      invariant forall k :: i <= k < len - i ==> buffer[k] == was[k]
      invariant forall k :: 0 <= k < len ==> buffer[k] != NUL
    {
      var tmp := buffer[i];
      buffer[i] := buffer[n - 1 - i];
      buffer[n - 1 - i] := tmp;
      i := i + 1;
      n := LenOf(buffer, len);
    }
  }

  /** strlen of a buffer whose first NUL is at len. */
  method LenOf(buffer: array<char>, ghost len: nat) returns (n: nat)
    requires len < buffer.Length && buffer[len] == NUL && NUL !in buffer[..len]
    ensures n == len
  {
    StrIs(buffer[..], buffer[..len]);
    assert buffer[0..] == buffer[..];
    n := StrLen(buffer, 0);
  }

  function IsSpace(c: char): bool {
    c == '\n' || c == '\t' || c == '\U{0b}' || c == ' ' || c == '\U{0c}' || c == '\r'
  }

  /** The number of leading characters of s from i on that satisfy p. */
  function CountWhile(s: string, i: nat, p: char -> bool): (n: nat)
    requires i <= |s|
    ensures i + n <= |s|
    ensures forall k :: i <= k < i + n ==> p(s[k])
    ensures i + n < |s| ==> !p(s[i + n])
    decreases |s| - i
  {
    if i < |s| && p(s[i]) then 1 + CountWhile(s, i + 1, p) else 0
  }

  function IsDigitChar(c: char): bool {
    '0' <= c <= '9'
  }

  /** What atoi reads: blanks, a sign, digits. */
  function AtoiValue(s: string): int {
    var start := CountWhile(s, 0, IsSpace);
    var signed := start < |s| && (s[start] == '+' || s[start] == '-');
    var first := if signed then start + 1 else start;
    var n := CountWhile(s, first, IsDigitChar);
    var v: int := Value(s[first..first + n]);
    if signed && s[start] == '-' then -v else v
  }

  /** atoi's first loop. */
  method SkipSpaces(str: string) returns (i: nat)
    ensures i == CountWhile(str, 0, IsSpace)
  {
    i := 0;
    while IsSpace(CharAt(str, i))
      invariant 0 <= i <= |str|
      invariant i + CountWhile(str, i, IsSpace) == CountWhile(str, 0, IsSpace)
      decreases |str| - i
    {
      i := i + 1;
    }
  }

  /** atoi's second loop. */
  method ReadDigits(str: string, first: nat) returns (nbr: nat)
    requires first <= |str|
    ensures nbr == Value(str[first..first + CountWhile(str, first, IsDigitChar)])
  {
    var i := first;
    nbr := 0;
    while IsDigitChar(CharAt(str, i))
      invariant first <= i <= |str|
      invariant i - first + CountWhile(str, i, IsDigitChar) == CountWhile(str, first, IsDigitChar)
      invariant IsDigits(str[first..i]) && nbr == Value(str[first..i])
      decreases |str| - i
    {
      assert str[first..i + 1][..i - first] == str[first..i];
      nbr := nbr * 10;
      nbr := nbr + (CharAt(str, i) as int - '0' as int);
      i := i + 1;
    }
  }

  /** atoi, over the mathematical integers. */
  method Atoi(str: string) returns (r: int)
    ensures r == AtoiValue(str)
  {
    var i := SkipSpaces(str);
    var negative := CharAt(str, i) == '-';
    if CharAt(str, i) == '+' || CharAt(str, i) == '-' {
      i := i + 1;
    }
    var nbr: int := ReadDigits(str, i);
    r := if negative then -nbr else nbr;
  }

  lemma {:induction false} CountAll(s: string, first: nat, p: char -> bool)
    requires first <= |s| && forall k :: first <= k < |s| ==> p(s[k])
    ensures CountWhile(s, first, p) == |s| - first
    decreases |s| - first
  {
    if first < |s| {
      CountAll(s, first + 1, p);
    }
  }

  /** Digits behind a minus sign or nothing are read back. */
  lemma ReadBack(d: string, sign: string)
    requires d != "" && IsDigits(d) && (sign == "" || sign == "-")
    ensures AtoiValue(sign + d) == if sign == "" then Value(d) else 0 - Value(d)
  {
    hide Value;
    var s, first := sign + d, |sign|;
    assert forall k :: first <= k < |s| ==> s[k] == d[k - first];
    CountAll(s, first, IsDigitChar);
    assert !IsSpace(s[0]);
    assert CountWhile(s, 0, IsSpace) == 0;
    assert s[first..|s|] == d;
  }

  /** atoi undoes itoa, for every int above the least. */
  lemma AtoiUndoesItoa(n: int)
    requires -INT_MAX <= n <= INT_MAX
    ensures AtoiValue(Decimal(n)) == n
  {
    hide AtoiValue, Digits;
    var m := if n < 0 then -n else n;
    ValueOfDigits(m);
    DigitsNotEmpty(m);
    if n == 0 {
      ReadBack("0", "");
      assert "0"[..0] == "";
      assert "" + "0" == "0";
    } else if n > 0 {
      ReadBack(Digits(m), "");
      assert "" + Digits(m) == Digits(m);
    } else {
      ReadBack(Digits(m), "-");
    }
  }

  lemma DigitsNotEmpty(n: nat)
    ensures n > 0 ==> Digits(n) != ""
  {
  }

  // ---- Hexadecimal ----------------------------------------------------------------------------

  function HexDigit(d: int): (c: char)
    requires 0 <= d < 16
  {
    if d < 10 then ('0' as int + d) as char else ('A' as int + (d - 10)) as char
  }

  /** The last k hexadecimal digits of v. */
  function HexDigits(v: nat, k: nat): (s: string)
    ensures |s| == k
  {
    if k == 0 then "" else HexDigits(v / 16, k - 1) + [HexDigit(v % 16)]
  }

  /** The text terminal_print_hex writes. */
  function HexText(v: nat): string {
    "0x" + HexDigits(v, 8)
  }

  /** The buffer terminal_print_hex fills from its last digit to its first. */
  method PrintHex(val: nat) returns (text: string)
    requires val < WORD_LIMIT
    ensures text == HexText(val)
  {
    var buf := new char[11];
    buf[0], buf[1] := '0', 'x';
    var v := val;
    var i := 9;
    while i >= 2
      invariant 1 <= i <= 9 && buf[0] == '0' && buf[1] == 'x'
      invariant HexDigits(val, 8) == HexDigits(v, i - 1) + buf[i + 1..10]
    {
      var nibble := v % 16;
      buf[i] := HexDigit(nibble);
      assert buf[i..10] == [buf[i]] + buf[i + 1..10];
      v := v / 16;
      i := i - 1;
    }
    buf[10] := NUL;
    assert buf[..10] == buf[..2] + buf[2..10];
    assert buf[2..10] == HexDigits(val, 8);
    text := buf[..10];
  }

  function HexValueOf(c: char): Option<int> {
    if '0' <= c <= '9' then Some(c as int - '0' as int)
    else if 'a' <= c <= 'f' then Some(c as int - 'a' as int + 10)
    else if 'A' <= c <= 'F' then Some(c as int - 'A' as int + 10)
    else None
  }

  /** htoi's main loop from accumulator acc on, in 32-bit arithmetic. */
  function HtoiFrom(s: string, i: nat, acc: int): int
    requires i <= |s|
    decreases |s| - i
  {
    if i == |s| then acc
    else match HexValueOf(s[i])
      case None => acc
      case Some(d) => HtoiFrom(s, i + 1, Wrap32(acc * 16) + d)
  }

  function IsBlank(c: char): bool {
    c == ' '
  }

  function HtoiValue(s: string): int {
    var start := CountWhile(s, 0, IsBlank);
    var prefixed := start + 1 < |s| && s[start] == '0' && (s[start + 1] == 'x' || s[start + 1] == 'X');
    HtoiFrom(s, if prefixed then start + 2 else start, 0)
  }

  /** htoi. The shifted accumulator's low four bits are clear, so `|` adds. */
  method Htoi(hexStr: string) returns (result: int)
    requires NUL !in hexStr
    ensures result == HtoiValue(hexStr)
  {
    result := 0;
    var i := 0;
    while CharAt(hexStr, i) == ' '
      invariant 0 <= i <= |hexStr|
      invariant i + CountWhile(hexStr, i, IsBlank) == CountWhile(hexStr, 0, IsBlank)
      decreases |hexStr| - i
    {
      i := i + 1;
    }
    if CharAt(hexStr, i) == '0' && (CharAt(hexStr, i + 1) == 'x' || CharAt(hexStr, i + 1) == 'X') {
      i := i + 2;
    }
    while CharAt(hexStr, i) != NUL
      invariant 0 <= i <= |hexStr|
      invariant HtoiFrom(hexStr, i, result) == HtoiValue(hexStr)
      decreases |hexStr| - i
    {
      var value := HexValueOf(hexStr[i]);
      if value.None? {
        break;
      }
      result := Wrap32(result * 16) + value.value;
      i := i + 1;
    }
    assert i < |hexStr| ==> hexStr[i] in hexStr;
  }
}

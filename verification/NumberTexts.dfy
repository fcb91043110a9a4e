/** The texts that atoi and htoi of src/lib/integer.c read and the printers write, character by character. */
module NumberTexts {

  import opened Machine
  import opened Numbers

  // ---- Decimal ------------------------------------------------------------------------------

  /** Blanks, newlines, tabs and the other three characters atoi skips. */
  predicate IsWhite(s: string) {
    forall i :: 0 <= i < |s| ==> s[i] in " \n\t\r\U{0b}\U{0c}"
  }

  lemma {:induction false} CountPrefix(s: string, front: string, rest: string, p: char -> bool, i: nat)
    requires s == front + rest && i <= |front|
    requires (forall k :: 0 <= k < |front| ==> p(front[k])) && (rest != "" ==> !p(rest[0]))
    ensures CountWhile(s, i, p) == |front| - i
    decreases |front| - i
  {
    if i < |front| {
      assert s[i] == front[i];
      CountPrefix(s, front, rest, p, i + 1);
    } else if rest != "" {
      assert s[i] == rest[0];
    }
  }

  /** atoi reads white space, a sign or none, and the digits up to the first other character. */
  lemma AtoiReads(white: string, sign: string, digits: string, rest: string)
    requires IsWhite(white) && sign in ["", "+", "-"] && IsDigits(digits)
    requires rest != "" ==> !('0' <= rest[0] <= '9')
    requires sign == "" && digits == "" && rest != "" ==> rest[0] !in " \n\t\r\U{0b}\U{0c}+-"
    ensures AtoiValue(white + sign + digits + rest) == if sign == "-" then 0 - Value(digits) else Value(digits)
  {
    var s := white + sign + digits + rest;
    var behind := sign + (digits + rest);
    assert s == white + behind && s == (white + sign) + digits + rest;
    BehindWhite(sign, digits, rest);
    CountPrefix(s, white, behind, IsSpace, 0);
    DigitsCounted(s, white + sign, digits, rest);
    hide CountWhile, Value, IsSpace, IsWhite, AtoiValue;
    AtoiOf(s, |white|, |sign|, |digits|);
  }

  /** The sign, k characters at start, and the n digits behind it. */
  lemma AtoiOf(s: string, start: nat, k: nat, n: nat)
    requires start + k + n <= |s| && k <= 1 && CountWhile(s, 0, IsSpace) == start
    requires start < |s| ==> (s[start] == '+' || s[start] == '-' <==> k == 1)
    requires CountWhile(s, start + k, IsDigitChar) == n
    ensures IsDigits(s[start + k..start + k + n])
    ensures AtoiValue(s) == if k == 1 && s[start] == '-' then 0 - Value(s[start + k..start + k + n])
                            else Value(s[start + k..start + k + n])
  {
    hide Value, CountWhile;
    forall j | start + k <= j < start + k + n
      ensures '0' <= s[j] <= '9'
    {
      assert IsDigitChar(s[j]);
    }
  }

  lemma BehindWhite(sign: string, digits: string, rest: string)
    requires sign in ["", "+", "-"] && IsDigits(digits)
    requires sign == "" && digits == "" && rest != "" ==> rest[0] !in " \n\t\r\U{0b}\U{0c}+-"
    ensures var behind := sign + (digits + rest);
            && (behind != "" ==> !IsSpace(behind[0]))
            && (behind != "" && (behind[0] == '+' || behind[0] == '-') <==> sign != "")
            && (sign != "" ==> behind[0] == sign[0] && |sign| == 1)
  {
    if sign == "" && digits != "" {
      assert (digits + rest)[0] == digits[0];
    }
  }

  lemma DigitsCounted(s: string, front: string, digits: string, rest: string)
    requires s == front + digits + rest && IsDigits(digits) && (rest != "" ==> !('0' <= rest[0] <= '9'))
    ensures CountWhile(s, |front|, IsDigitChar) == |digits| && s[|front|..|front| + |digits|] == digits
  {
    CountFrom(s, front, digits, rest, IsDigitChar, 0);
  }

  lemma {:induction false} CountFrom(s: string, front: string, mid: string, rest: string, p: char -> bool, i: nat)
    requires s == front + mid + rest && i <= |mid|
    requires (forall k :: 0 <= k < |mid| ==> p(mid[k])) && (rest != "" ==> !p(rest[0]))
    ensures CountWhile(s, |front| + i, p) == |mid| - i
    decreases |mid| - i
  {
    if i < |mid| {
      assert s[|front| + i] == mid[i];
      CountFrom(s, front, mid, rest, p, i + 1);
    } else if rest != "" {
      assert s[|front| + i] == rest[0];
    }
  }

  /** A digit more counts ten times what stands in front of it, and one. */
  lemma ValueAppend(s: string, d: char)
    requires IsDigits(s) && '0' <= d <= '9'
    ensures IsDigits(s + [d]) && Value(s + [d]) == 10 * Value(s) + (d as int - 48)
  {
    assert (s + [d])[..|s|] == s;
  }

  /** An instance: what itoa writes. */
  lemma MinusThirtyTwo()
    ensures Decimal(-32) == "-32"
  {
    assert Digits(3) == "3";
    assert Digits(32) == "32";
  }

  // ---- Hexadecimal ----------------------------------------------------------------------------

  function Upper(d: int): char
    requires 0 <= d < 16
  {
    "0123456789ABCDEF"[d]
  }

  function Lower(d: int): char
    requires 0 <= d < 16
  {
    "0123456789abcdef"[d]
  }

  predicate IsHexPrefix(s: string) {
    s == "" || s == "0x" || s == "0X"
  }

  predicate IsHexDigit(c: char) {
    '0' <= c <= '9' || 'a' <= c <= 'f' || 'A' <= c <= 'F'
  }

  /** s spells the last |s| hexadecimal digits of v, each in upper or lower case. */
  predicate Spells(s: string, v: nat) {
    s == "" || ((s[|s| - 1] == Upper(v % 16) || s[|s| - 1] == Lower(v % 16)) && Spells(s[..|s| - 1], v / 16))
  }

  /** What terminal_print_hex writes are upper-case digits. */
  lemma {:induction false} HexDigitsSpell(v: nat, k: nat)
    ensures Spells(HexDigits(v, k), v)
    ensures forall i :: 0 <= i < k ==> !('a' <= HexDigits(v, k)[i] <= 'f')
  {
    hide Upper, Lower, HexDigit;
    if k > 0 {
      HexDigitsSpell(v / 16, k - 1);
      var s := HexDigits(v, k);
      assert s[..k - 1] == HexDigits(v / 16, k - 1);
      UpperDigit(v % 16);
    }
  }

  lemma UpperDigit(d: int)
    requires 0 <= d < 16
    ensures HexDigit(d) == Upper(d) && !('a' <= HexDigit(d) <= 'f')
  {
  }

  lemma SpelledDigit(d: int, c: char)
    requires 0 <= d < 16 && (c == Upper(d) || c == Lower(d))
    ensures HexValueOf(c) == Some(d) && IsHexDigit(c)
  {
  }

  function Pow16(k: nat): nat {
    if k == 0 then 1 else 16 * Pow16(k - 1)
  }

  /** A digit shifted into a word: the same modulo 2^32 as appended to the number. */
  lemma ShiftedIn(w: int, d: int)
    requires 0 <= d < 16
    ensures Wrap32(Wrap32(w) * 16) + d == Wrap32(16 * w + d)
  {
    var q, r := w / WORD_LIMIT, w % WORD_LIMIT;
    var h, l := r / 0x1000_0000, r % 0x1000_0000;
    WrapIs(r * 16, h, l * 16);
    WrapIs(16 * w + d, 16 * q + h, l * 16 + d);
  }

  lemma WrapIs(x: int, k: int, y: int)
    requires x == k * WORD_LIMIT + y && 0 <= y < WORD_LIMIT
    ensures Wrap32(x) == y
  {
  }

  lemma Regrouped(acc: int, v: nat, p: nat)
    requires v < 16 * p
    ensures v / 16 < p && 16 * (acc * p + v / 16) + v % 16 == acc * (16 * p) + v
  {
    assert acc * (16 * p) == 16 * (acc * p);
  }

  /** Reading spelled digits shifts them into the accumulator, modulo 2^32. */
  lemma {:induction false} HtoiOfSpelled(s: string, i: nat, digits: string, v: nat, acc: int)
    requires i + |digits| <= |s| && s[i..i + |digits|] == digits && Spells(digits, v) && v < Pow16(|digits|)
    ensures HtoiFrom(s, i, Wrap32(acc)) == HtoiFrom(s, i + |digits|, Wrap32(acc * Pow16(|digits|) + v))
    decreases |digits|
  {
    if digits != "" {
      hide Wrap32, HtoiFrom, Upper, Lower;
      var k := |digits| - 1;
      assert s[i..i + k] == s[i..i + |digits|][..k] == digits[..k];
      var w := acc * Pow16(k) + v / 16;
      Regrouped(acc, v, Pow16(k));
      HtoiOfSpelled(s, i, digits[..k], v / 16, acc);
      assert s[i + k] == s[i..i + |digits|][k] == digits[k];
      HtoiDigit(s, i + k, w, v % 16);
    }
  }

  lemma HtoiDigit(s: string, i: nat, w: int, d: int)
    requires i < |s| && 0 <= d < 16 && (s[i] == Upper(d) || s[i] == Lower(d))
    ensures HtoiFrom(s, i, Wrap32(w)) == HtoiFrom(s, i + 1, Wrap32(16 * w + d))
  {
    hide Upper, Lower, HexValueOf;
    SpelledDigit(d, s[i]);
    ShiftedIn(w, d);
  }

  /** htoi skips blanks and a prefix, reads digits in either case up to the first other character, and keeps the last 32
      bits of the number. */
  lemma HtoiReads(blanks: string, prefix: string, digits: string, v: nat, rest: string)
    requires (forall i :: 0 <= i < |blanks| ==> blanks[i] == ' ') && IsHexPrefix(prefix)
    requires Spells(digits, v) && v < Pow16(|digits|) && (rest != "" ==> !IsHexDigit(rest[0]))
    requires rest != "" ==> (prefix + digits == "" ==> rest[0] != ' ') && (prefix == "" && |digits| == 1 ==> rest[0] !in "xX")
    ensures HtoiValue(blanks + prefix + digits + rest) == v % 0x1_0000_0000
  {
    hide CountWhile, Spells, Pow16, HtoiFrom, HtoiValue, IsHexDigit, IsHexPrefix;
    var s := blanks + prefix + digits + rest;
    var behind := prefix + (digits + rest);
    assert s == blanks + behind;
    BehindBlanks(prefix, digits, v, rest);
    CountPrefix(s, blanks, behind, IsBlank, 0);
    assert s[|blanks|..] == behind;
    var first := |blanks| + |prefix|;
    assert s[first..first + |digits|] == digits && s[first + |digits|..] == rest;
    HtoiOfSpelled(s, first, digits, v, 0);
    RestEnds(s, first + |digits|, rest, Wrap32(v));
    PrefixSkipped(s, |blanks|, behind, prefix);
  }

  lemma PrefixSkipped(s: string, start: nat, behind: string, prefix: string)
    requires start <= |s| && s[start..] == behind && CountWhile(s, 0, IsBlank) == start
    requires IsHexPrefix(prefix) && prefix <= behind
    requires prefix == "" && |behind| > 1 && behind[0] == '0' ==> behind[1] != 'x' && behind[1] != 'X'
    ensures HtoiValue(s) == HtoiFrom(s, start + |prefix|, 0)
  {
    assert forall i :: 0 <= i < |behind| ==> s[start + i] == behind[i];
  }

  lemma BehindBlanks(prefix: string, digits: string, v: nat, rest: string)
    requires IsHexPrefix(prefix) && Spells(digits, v) && (rest != "" ==> !IsHexDigit(rest[0]))
    requires rest != "" ==> (prefix + digits == "" ==> rest[0] != ' ') && (prefix == "" && |digits| == 1 ==> rest[0] !in "xX")
    ensures var behind := prefix + (digits + rest);
            && prefix <= behind && (behind != "" ==> behind[0] != ' ')
            && (prefix == "" && |behind| > 1 && behind[0] == '0' ==> behind[1] != 'x' && behind[1] != 'X')
  {
    SpelledCharacters(digits, v);
    hide Spells;
    var behind := prefix + (digits + rest);
    if prefix == "" {
      assert behind == digits + rest;
      if digits == "" {
        assert behind == rest;
        } else {
        assert behind[0] == digits[0];
        if |behind| > 1 {
          assert behind[1] == if |digits| > 1 then digits[1] else rest[0];
        }
      }
    }
  }

  lemma {:induction false} SpelledCharacters(digits: string, v: nat)
    requires Spells(digits, v)
    ensures forall i :: 0 <= i < |digits| ==> IsHexDigit(digits[i])
  {
    hide Upper, Lower, IsHexDigit;
    if digits != "" {
      SpelledDigit(v % 16, digits[|digits| - 1]);
      SpelledCharacters(digits[..|digits| - 1], v / 16);
      forall i | 0 <= i < |digits|
        ensures IsHexDigit(digits[i])
      {
        assert i < |digits| - 1 ==> digits[i] == digits[..|digits| - 1][i];
      }
    }
  }

  lemma RestEnds(s: string, i: nat, rest: string, acc: int)
    requires i <= |s| && s[i..] == rest && (rest != "" ==> !IsHexDigit(rest[0]))
    ensures HtoiFrom(s, i, acc) == acc
  {
    if rest != "" {
      assert s[i] == rest[0];
      NotADigit(rest[0]);
    }
  }

  lemma NotADigit(c: char)
    requires !IsHexDigit(c)
    ensures HexValueOf(c) == None
  {
  }

  /** htoi reads back what terminal_print_hex writes, for every 32-bit value. */
  lemma HtoiUndoesPrintHex(v: nat)
    requires v < WORD_LIMIT
    ensures HtoiValue(HexText(v)) == v
  {
    Pow16Of8();
    hide HexDigits, Spells, HtoiValue, Pow16;
    HexDigitsSpell(v, 8);
    var none: string := "";
    assert none + "0x" + HexDigits(v, 8) + none == HexText(v);
    HtoiReads(none, "0x", HexDigits(v, 8), v, none);
  }

  lemma Pow16Of8()
    ensures Pow16(8) == WORD_LIMIT
  {
    assert Pow16(4) == 0x10000;
    assert Pow16(6) == 0x1000000;
  }
}

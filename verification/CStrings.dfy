/** NUL-terminated strings in fixed buffers, and the functions of src/lib/string.c that the shell, the
    history and the number printers rely on. */
module CStrings {

  const NUL: char := '\0'

  /** The index of the first NUL, |buf| if there is none. */
  function StrEnd(buf: seq<char>): (n: nat)
    ensures n <= |buf|
    ensures n < |buf| ==> buf[n] == NUL
    ensures forall i :: 0 <= i < n ==> buf[i] != NUL
  {
    if buf == [] || buf[0] == NUL then 0
    else
      var n := StrEnd(buf[1..]);
      assert forall i :: 1 <= i < n + 1 ==> buf[i] == buf[1..][i - 1];
      n + 1
  }

  /** buf holds a terminated string. */
  predicate Terminated(buf: seq<char>) {
    StrEnd(buf) < |buf|
  }

  /** The string buf holds. */
  function Str(buf: seq<char>): string {
    buf[..StrEnd(buf)]
  }

  lemma StrIs(buf: seq<char>, text: string)
    requires NUL !in text && |text| < |buf|
    requires forall i :: 0 <= i < |text| ==> buf[i] == text[i]
    requires buf[|text|] == NUL
    ensures StrEnd(buf) == |text| && Str(buf) == text && Terminated(buf)
  {
    assert forall i :: 0 <= i < |text| ==> buf[i] in text;
  }

  /** strlen. */
  method StrLen(buf: array<char>, from: nat := 0) returns (len: nat)
    requires from <= buf.Length && Terminated(buf[from..])
    ensures len == StrEnd(buf[from..])
  {
    len := 0;
    while buf[from + len] != NUL
      invariant 0 <= len && from + len < buf.Length && len <= StrEnd(buf[from..])
      invariant forall i :: 0 <= i < len ==> buf[from..][i] != NUL
      decreases buf.Length - len
    {
      assert buf[from..][len] != NUL;
      len := len + 1;
    }
    assert buf[from..][len] == NUL;
  }

  /** Character i of a string value, NUL behind its end. */
  function CharAt(s: string, i: nat): char {
    if i < |s| then s[i] else NUL
  }

  /** The first n characters of a string, or all of it. */
  function Cut(s: string, n: nat): string {
    if |s| <= n then s else s[..n]
  }

  /** strlcpy with a non-zero size: at most size - 1 characters, always terminated. */
  method StrLCpy(dest: array<char>, src: string, size: nat)
    requires 0 < size <= dest.Length && NUL !in src
    modifies dest
    ensures Terminated(dest[..]) && Str(dest[..]) == Cut(src, size - 1)
    ensures Str(dest[..]) <= src && |Str(dest[..])| == if |src| < size then |src| else size - 1
  {
    var i := 0;
    while i < size - 1 && CharAt(src, i) != NUL
      invariant 0 <= i <= size - 1 && i <= |src|
      invariant forall k :: 0 <= k < i ==> dest[k] == src[k]
    {
      dest[i] := src[i];
      i := i + 1;
    }
    dest[i] := NUL;
    assert i < |src| ==> src[i] in src;
    StrIs(dest[..], Cut(src, size - 1));
  }

  /** strncmp's verdict: the difference of the first characters that differ among the first n, 0 if none
      do or both strings end first. */
  method StrNCmp(s1: string, s2: string, n: nat) returns (d: int)
    requires NUL !in s1 && NUL !in s2
    ensures d == 0 <==> Cut(s1, n) == Cut(s2, n)
    ensures d != 0 ==> exists i :: 0 <= i < n && i <= |s1| && i <= |s2| && Cut(s1, i) == Cut(s2, i)
                                   && d == CharAt(s1, i) as int - CharAt(s2, i) as int
    ensures n <= |s2| ==> (d == 0 <==> s2[..n] <= s1)
  {
    if n == 0 {
      return 0;
    }
    var i := 0;
    while i < n - 1 && CharAt(s1, i) == CharAt(s2, i) && CharAt(s2, i) != NUL
      invariant 0 <= i <= n - 1
      invariant i <= |s1| && i <= |s2| && Cut(s1, i) == Cut(s2, i)
    {
      assert i < |s2| && (i < |s1| ==> s1[i] in s1) && s2[i] in s2;
      assert Cut(s1, i + 1) == Cut(s1, i) + [s1[i]] && Cut(s2, i + 1) == Cut(s2, i) + [s2[i]];
      i := i + 1;
    }
    d := CharAt(s1, i) as int - CharAt(s2, i) as int;
    FirstDifference(s1, s2, n, i);
    assert n <= |s2| ==> (Cut(s1, n) == Cut(s2, n) <==> s2[..n] <= s1);
  }

  lemma FirstDifference(s1: string, s2: string, n: nat, i: nat)
    requires NUL !in s1 && NUL !in s2 && i < n && i <= |s1| && i <= |s2| && Cut(s1, i) == Cut(s2, i)
    requires i == n - 1 || CharAt(s1, i) != CharAt(s2, i) || CharAt(s2, i) == NUL
    ensures Cut(s1, n) == Cut(s2, n) <==> CharAt(s1, i) == CharAt(s2, i)
  {
    assert i < |s1| ==> s1[i] in s1;
    assert i < |s2| ==> s2[i] in s2;
    if i < |s1| && i < |s2| {
      assert Cut(s1, i + 1) == Cut(s1, i) + [s1[i]] && Cut(s2, i + 1) == Cut(s2, i) + [s2[i]];
      assert Cut(s1, n)[i] == s1[i] && Cut(s2, n)[i] == s2[i];
    } else {
      assert i == |s1| ==> |Cut(s1, n)| == i;
      assert i == |s2| ==> |Cut(s2, n)| == i;
    }
  }

  // ---- Text held at a place of a buffer ----------------------------------------------------------

  /** The buffer holds text, terminated, from base on. */
  predicate HoldsAt(buf: seq<char>, base: nat, text: string) {
    && base + |text| < |buf| && buf[base + |text|] == NUL
    && forall k :: 0 <= k < |text| ==> buf[base + k] == text[k] && text[k] != NUL
  }

  lemma HeldString(buf: seq<char>, base: nat, text: string)
    requires HoldsAt(buf, base, text)
    ensures Terminated(buf[base..]) && Str(buf[base..]) == text
    ensures base < |buf| && (buf[base] == NUL <==> text == "")
  {
    StrIs(buf[base..], text);
  }

  /** The first character of what is held, or the NUL behind it. */
  lemma HeldFirst(buf: seq<char>, base: nat, text: string)
    requires HoldsAt(buf, base, text)
    ensures base + |text| < |buf| && buf[base] == if text == "" then NUL else text[0]
    ensures buf[base] == NUL <==> text == ""
  {
  }

  /** What is held from a later place on. */
  lemma HeldTail(buf: seq<char>, base: nat, text: string, n: nat)
    requires HoldsAt(buf, base, text) && n <= |text|
    ensures HoldsAt(buf, base + n, text[n..])
    ensures buf[base + n] == if n < |text| then text[n] else NUL
  {
  }

  /** What is held after the place behind the first n characters is terminated. */
  lemma HeldCut(buf: seq<char>, base: nat, text: string, n: nat)
    requires HoldsAt(buf, base, text) && n < |text|
    ensures var buf' := buf[base + n := NUL];
            HoldsAt(buf', base, text[..n]) && HoldsAt(buf', base + n + 1, text[n + 1..])
  {
  }

  /** The text from a place of the buffer on, as its readers see it. */
  method ReadString(buf: array<char>, from: nat, ghost text: string) returns (s: string)
    requires HoldsAt(buf[..], from, text)
    ensures s == text
  {
    HeldString(buf[..], from, text);
    assert buf[from..] == buf[..][from..];
    var n := StrLen(buf, from);
    s := buf[from..from + n];
  }
}

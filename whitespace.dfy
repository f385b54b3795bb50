/**
 * removeAllWhitespace of WebPageLinker.c: compacts a NUL-terminated character
 * buffer in place, keeping the characters that are not whitespace in order.
 */
module Whitespace {

  const Nul: char := 0 as char

  /** The characters isspace accepts in the C locale: space, tab, newline, vertical tab, form feed, carriage return. */
  predicate IsSpace(c: char) {
    c == ' ' || c == '\t' || c == '\n' || c == 11 as char || c == 12 as char || c == '\r'
  }

  /** s with every whitespace character removed. */
  function Stripped(s: string): (r: string)
    ensures |r| <= |s|
    ensures forall i :: 0 <= i < |r| ==> !IsSpace(r[i])
  {
    if s == [] then []
    else Stripped(s[..|s| - 1]) + (if IsSpace(s[|s| - 1]) then [] else [s[|s| - 1]])
  }

  /** Stripping works piece by piece: characters keep their relative order. */
  lemma {:induction false} StrippedAppend(a: string, b: string)
    ensures Stripped(a + b) == Stripped(a) + Stripped(b)
    decreases |b|
  {
    if b != [] {
      var b' := b[..|b| - 1];
      assert (a + b)[..|a + b| - 1] == a + b';
      StrippedAppend(a, b');
    } else {
      assert a + b == a;
    }
  }

  /** Stripping keeps every non-whitespace character as often as it occurs and drops all whitespace. */
  lemma {:induction false} StrippedCounts(s: string, c: char)
    ensures multiset(Stripped(s))[c] == if IsSpace(c) then 0 else multiset(s)[c]
    decreases |s|
  {
    if s != [] {
      var s' := s[..|s| - 1];
      assert s == s' + [s[|s| - 1]];
      StrippedCounts(s', c);
    }
  }

  /** A string without whitespace is left as it is; so stripping twice is stripping once. */
  lemma {:induction false} StrippedNoSpace(s: string)
    requires forall i :: 0 <= i < |s| ==> !IsSpace(s[i])
    ensures Stripped(s) == s
    decreases |s|
  {
    if s != [] {
      StrippedNoSpace(s[..|s| - 1]);
    }
  }

  lemma StrippedIdempotent(s: string)
    ensures Stripped(Stripped(s)) == Stripped(s)
  {
    StrippedNoSpace(Stripped(s));
  }

  /** The C string held in a buffer: the characters before the first NUL. */
  function CStr(s: seq<char>): (r: seq<char>)
    ensures |r| <= |s| && r == s[..|r|] && Nul !in r
    ensures |r| < |s| ==> s[|r|] == Nul
  {
    if s == [] || s[0] == Nul then [] else [s[0]] + CStr(s[1..])
  }

  /**
   * removeAllWhitespace: afterwards the buffer holds the old string with its
   * whitespace removed, terminated by a NUL no later than the old one; the
   * old terminator and every character after it are untouched.
   */
  method RemoveAllWhitespace(str: array<char>)
    requires Nul in str[..]
    modifies str
    ensures CStr(str[..]) == Stripped(CStr(old(str[..])))
    ensures |CStr(str[..])| <= |CStr(old(str[..]))|
    ensures forall k :: |CStr(old(str[..]))| <= k < str.Length ==> str[k] == old(str[k])
  {
    ghost var text := CStr(str[..]);
    ghost var n := |text|;
    var i, j := 0, 0;
    while str[i] != Nul
      invariant 0 <= j <= i <= n < str.Length
      invariant forall k :: i <= k < str.Length ==> str[k] == old(str[k])
      invariant |Stripped(text[..i])| == j
      invariant forall k :: 0 <= k < j ==> str[k] == Stripped(text[..i])[k]
      decreases n - i
    {
      var c := str[i];
      StrippedStep(text, i);
      if !IsSpace(c) {
        str[j] := c;
        j := j + 1;
      }
      i := i + 1;
    }
    assert text[..i] == text;
    assert str[..j] == Stripped(text);
    str[j] := Nul;
    CompactedBuffer(old(str[..]), str[..], j);
  }

  /**
   * A buffer whose first j characters are the stripped C string of the old
   * buffer, followed by a NUL, holds that stripped string as its C string.
   */
  lemma CompactedBuffer(before: seq<char>, after: seq<char>, j: nat)
    requires |CStr(before)| < |before| == |after|
    requires j < |after| && after[..j] == Stripped(CStr(before)) && after[j] == Nul
    ensures CStr(after) == Stripped(CStr(before))
  {
    StrippedAddsNothing(CStr(before), Nul);
    CStrPrefix(after, j);
  }

  /** Stripping never introduces a character the string did not hold. */
  lemma StrippedAddsNothing(s: string, c: char)
    requires c !in s
    ensures c !in Stripped(s)
  {
    StrippedCounts(s, c);
    assert c !in multiset(s);
  }

  /** Reading one more character extends the stripped prefix by that character unless it is whitespace. */
  lemma StrippedStep(s: string, i: nat)
    requires i < |s|
    ensures Stripped(s[..i + 1]) == Stripped(s[..i]) + (if IsSpace(s[i]) then [] else [s[i]])
  {
    assert s[..i + 1][..i] == s[..i];
  }

  /** A buffer whose first j characters hold no NUL and whose j-th is NUL holds the C string of length j. */
  lemma {:induction false} CStrPrefix(s: seq<char>, j: nat)
    requires j < |s| && s[j] == Nul && Nul !in s[..j]
    ensures CStr(s) == s[..j]
  {
    if j > 0 {
      assert Nul !in s[1..][..j - 1];
      CStrPrefix(s[1..], j - 1);
    }
  }
}

/** String samplers (namespace `gen_strings`). Characters are the 7-bit part
    of C++'s `char`; case conversion follows the C locale. */
module Strings {
  import opened Common
  import opened Engine

  datatype CaseType = Lower | Upper | Mixed

  predicate IsLower(c: char) { 'a' <= c <= 'z' }
  predicate IsUpper(c: char) { 'A' <= c <= 'Z' }
  predicate IsLetter(c: char) { IsLower(c) || IsUpper(c) }
  predicate IsDigit(c: char) { '0' <= c <= '9' }

  /** `std::islower(ch) ? std::toupper(ch) : std::tolower(ch)`. */
  function SwapCase(c: char): (d: char)
    ensures IsLower(c) ==> IsUpper(d) && d as int == c as int - 32
    ensures IsUpper(c) ==> IsLower(d) && d as int == c as int + 32
    ensures !IsLetter(c) ==> d == c
  {
    if IsLower(c) then (c as int - 32) as char
    else if IsUpper(c) then (c as int + 32) as char
    else c
  }

  /** Swapping twice gives the character back. */
  lemma SwapCaseInvolution(c: char)
    ensures SwapCase(SwapCase(c)) == c
  {
  }

  /** A pair of bounds `random_char` accepts: l <= r within 7-bit `char`. */
  predicate CharRange(l: char, r: char)
  {
    l <= r && r as int <= 127
  }

  /** The characters `random_char(caseType, rng, l, r)` can return: one of
      [l, r], or, under Mixed, the case-swapped form of one. */
  predicate Drawable(caseType: CaseType, l: char, r: char, ch: char)
  {
    l <= ch <= r || (caseType == Mixed && l <= SwapCase(ch) <= r)
  }

  /** With the default bounds 'a'..'z', every drawable character is a letter. */
  lemma DefaultDrawableIsLetter(caseType: CaseType, ch: char)
    requires Drawable(caseType, 'a', 'z', ch)
    ensures IsLetter(ch)
  {
    if !('a' <= ch <= 'z') {
      assert IsLower(SwapCase(ch));
    }
  }

  /** `random_char(caseType, rng, l, r)`: `base + uniform(l - base, r - base)`
      with base 'A' for Upper and 'a' otherwise; the base cancels, so Lower and
      Upper both return a character of [l, r] (Upper with 'a'..'z' gives
      lower case). Mixed then swaps the case on a coin flip. */
  method RandomChar(caseType: CaseType, rng: Rng, l: char := 'a', r: char := 'z') returns (ch: char)
    requires CharRange(l, r)
    modifies rng
    ensures caseType != Mixed ==> l <= ch <= r
    ensures Drawable(caseType, l, r, ch)
  {
    var base := if caseType == Upper then 'A' else 'a';
    var k := rng.UniformInt(l as int - base as int, r as int - base as int);
    ch := (base as int + k) as char;
    if caseType == Mixed {
      var flip := rng.Coin();
      if flip {
        SwapCaseInvolution(ch);
        ch := SwapCase(ch);
      }
    }
  }

  /** `random(len, caseType, rng, l, r)`: `len` independent `random_char` draws. */
  method Random(len: nat, caseType: CaseType, rng: Rng, l: char := 'a', r: char := 'z') returns (s: string)
    requires len == 0 || CharRange(l, r)
    modifies rng
    ensures |s| == len
    ensures forall i :: 0 <= i < len ==> Drawable(caseType, l, r, s[i])
  {
    var a := new char[len](_ => 'a');
    for i := 0 to len
      invariant forall k :: 0 <= k < i ==> Drawable(caseType, l, r, a[k])
    {
      a[i] := RandomChar(caseType, rng, l, r);
    }
    s := a[..];
  }

  predicate IsPalindrome(s: string)
  {
    forall i :: 0 <= i < |s| ==> s[i] == s[|s| - 1 - i]
  }

  function Reverse(s: string): (r: string)
    ensures |r| == |s|
  {
    if s == [] then [] else Reverse(s[1..]) + [s[0]]
  }

  lemma {:induction false} ReverseAt(s: string, k: nat)
    requires k < |s|
    ensures Reverse(s)[k] == s[|s| - 1 - k]
  {
    if k < |s| - 1 {
      ReverseAt(s[1..], k);
    }
  }

  /** A palindrome is exactly a string equal to its reversal. */
  lemma PalindromeIffReversed(s: string)
    ensures IsPalindrome(s) <==> Reverse(s) == s
  {
    forall k | 0 <= k < |s| ensures Reverse(s)[k] == s[|s| - 1 - k] {
      ReverseAt(s, k);
    }
    if Reverse(s) == s {
      forall i | 0 <= i < |s| ensures s[i] == s[|s| - 1 - i] {
        assert Reverse(s)[i] == s[i];
      }
    }
  }

  /** `palindrome(len, caseType, rng, l, r)`: positions i and j move inward
      from both ends, each pair receiving one drawn character; the middle
      of an odd length is drawn once. */
  method Palindrome(len: nat, caseType: CaseType, rng: Rng, l: char := 'a', r: char := 'z') returns (s: string)
    requires len == 0 || CharRange(l, r)
    modifies rng
    ensures |s| == len && IsPalindrome(s)
    ensures forall i :: 0 <= i < len ==> Drawable(caseType, l, r, s[i])
  {
    var a := new char[len](_ => 'a');
    var i, j := 0, len - 1;
    while i <= j
      invariant 0 <= i && i + j == len - 1
      invariant forall k :: 0 <= k < i ==> a[k] == a[len - 1 - k] && Drawable(caseType, l, r, a[k])
    {
      var ch := RandomChar(caseType, rng, l, r);
      a[i] := ch;
      a[j] := ch;
      i, j := i + 1, j - 1;
    }
    s := a[..];
    forall k | 0 <= k < len
      ensures s[k] == s[len - 1 - k] && Drawable(caseType, l, r, s[k])
    {
      if k >= i {
        assert len - 1 - k < i;
      }
    }
  }

  /** The characters `random_alphanum` can produce for given flags. */
  predicate AlphanumChar(letters: bool, digits: bool, caseType: CaseType, ch: char)
  {
    (letters && Drawable(caseType, 'a', 'z', ch)) || (digits && IsDigit(ch))
  }

  /** `random_alphanum(len, letters, digits, caseType)`: appends `len`
      characters; with both kinds allowed a coin picks a letter or a digit. */
  method RandomAlphanum(len: nat, letters: bool, digits: bool, caseType: CaseType, rng: Rng) returns (s: string)
    requires letters || digits
    modifies rng
    ensures |s| == len
    ensures forall i :: 0 <= i < len ==> AlphanumChar(letters, digits, caseType, s[i])
    ensures !letters ==> forall i :: 0 <= i < len ==> IsDigit(s[i])
    ensures !digits ==> forall i :: 0 <= i < len ==> IsLetter(s[i])
    ensures forall i :: 0 <= i < len ==> IsLetter(s[i]) || IsDigit(s[i])
  {
    s := [];
    for i := 0 to len
      invariant |s| == i
      invariant forall k :: 0 <= k < i ==> AlphanumChar(letters, digits, caseType, s[k])
    {
      var ch: char;
      var letter := letters;
      if letters && digits {
        letter := rng.Coin();
      }
      if letter {
        ch := RandomChar(caseType, rng);
      } else {
        var d := rng.UniformInt(0, 9);
        ch := ('0' as int + d) as char;
      }
      s := s + [ch];
    }
    forall i | 0 <= i < len ensures IsLetter(s[i]) || IsDigit(s[i]) {
      if !IsDigit(s[i]) {
        DefaultDrawableIsLetter(caseType, s[i]);
      }
    }
  }

  /** `random_custom(len, alphabet)`: each character picked from `alphabet`. */
  method RandomCustom(len: nat, alphabet: string, rng: Rng) returns (s: string)
    requires |alphabet| > 0
    modifies rng
    ensures |s| == len && forall i :: 0 <= i < len ==> s[i] in alphabet
  {
    var a := new char[len](_ => ' ');
    for i := 0 to len
      invariant forall k :: 0 <= k < i ==> a[k] in alphabet
    {
      var k := rng.UniformInt(0, |alphabet| - 1);
      a[i] := alphabet[k];
    }
    s := a[..];
  }

  /** `random_strings(count, len, caseType)`: `count` calls of `random` with
      the default bounds. */
  method RandomStrings(count: nat, len: int, caseType: CaseType, rng: Rng) returns (v: seq<string>)
    requires count == 0 || len >= 0
    modifies rng
    ensures |v| == count
    ensures forall i :: 0 <= i < count ==>
      |v[i]| == len && forall k :: 0 <= k < len ==> Drawable(caseType, 'a', 'z', v[i][k])
  {
    var a := new string[count];
    for i := 0 to count
      invariant forall j :: 0 <= j < i ==>
        |a[j]| == len && forall k :: 0 <= k < len ==> Drawable(caseType, 'a', 'z', a[j][k])
    {
      a[i] := Random(len, caseType, rng);
    }
    v := a[..];
  }

  /** `palindromes(count, len, caseType)`: `count` calls of `palindrome`. */
  method Palindromes(count: nat, len: int, caseType: CaseType, rng: Rng) returns (v: seq<string>)
    requires count == 0 || len >= 0
    modifies rng
    ensures |v| == count
    ensures forall i :: 0 <= i < count ==>
      |v[i]| == len && IsPalindrome(v[i]) && forall k :: 0 <= k < len ==> Drawable(caseType, 'a', 'z', v[i][k])
  {
    var a := new string[count];
    for i := 0 to count
      invariant forall j :: 0 <= j < i ==>
        |a[j]| == len && IsPalindrome(a[j]) && forall k :: 0 <= k < len ==> Drawable(caseType, 'a', 'z', a[j][k])
    {
      a[i] := Palindrome(len, caseType, rng);
    }
    v := a[..];
  }
}

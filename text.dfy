/** String helpers the round engine relies on: JavaScript's `String.prototype.trim`,
    ASCII lower-casing (`toLowerCase` as applied to a draw) and counting the
    characters of a string that belong to an alphabet. */
module Text {

  /** The code points `trim` removes: ECMAScript WhiteSpace and LineTerminator. */
  predicate IsSpace(c: char) {
    || c == '\t' || c == '\n' || c == '\U{000B}' || c == '\U{000C}' || c == '\r'
    || c == ' ' || c == '\U{00A0}' || c == '\U{1680}'
    || ('\U{2000}' <= c <= '\U{200A}')
    || c == '\U{2028}' || c == '\U{2029}' || c == '\U{202F}' || c == '\U{205F}'
    || c == '\U{3000}' || c == '\U{FEFF}'
  }

  /** The number of white-space characters `s` starts with. */
  function LeadingSpaces(s: string): (n: nat)
    ensures n <= |s|
    ensures forall i :: 0 <= i < n ==> IsSpace(s[i])
    ensures n < |s| ==> !IsSpace(s[n])
  {
    if s != [] && IsSpace(s[0]) then 1 + LeadingSpaces(s[1..]) else 0
  }

  /** The number of white-space characters `s` ends with. */
  function TrailingSpaces(s: string): (n: nat)
    ensures n <= |s|
    ensures forall i :: |s| - n <= i < |s| ==> IsSpace(s[i])
    ensures n < |s| ==> !IsSpace(s[|s| - 1 - n])
  {
    if s != [] && IsSpace(s[|s| - 1]) then 1 + TrailingSpaces(s[..|s| - 1]) else 0
  }

  /** `s.trim()`: leading white space removed, then trailing white space. The result is
      the slice of `s` that starts after its leading white space (all of which
      `LeadingSpaces` counts); everything after the slice is white space, and the slice
      neither starts nor ends with white space. */
  function Trim(s: string): (r: string)
    ensures var i := LeadingSpaces(s);
      && i + |r| <= |s| && r == s[i..i + |r|]
      && (forall k :: i + |r| <= k < |s| ==> IsSpace(s[k]))
    ensures r != [] ==> !IsSpace(r[0]) && !IsSpace(r[|r| - 1])
  {
    var i := LeadingSpaces(s);
    var t := s[i..];
    var n := TrailingSpaces(t);
    assert forall k :: i + |t| - n <= k < |s| ==> s[k] == t[k - i];
    s[i..i + |t| - n]
  }

  /** Trimming twice trims nothing more. */
  lemma TrimIdempotent(s: string)
    ensures Trim(Trim(s)) == Trim(s)
  {
    var r := Trim(s);
    assert LeadingSpaces(r) == 0;
    assert r[0..] == r;
    assert TrailingSpaces(r) == 0;
  }

  const UPPER_ALPHABET: string := "ABCDEFGHIJKLMNOPQRSTUVWXYZ"
  const LOWER_ALPHABET: string := "abcdefghijklmnopqrstuvwxyz"

  /** `toLowerCase` on one character, for the ASCII letters a draw is made of: the capital
      at a given place of the alphabet becomes the small letter at the same place. */
  function LowerChar(c: char): (d: char)
    ensures forall k :: 0 <= k < 26 && c == UPPER_ALPHABET[k] ==> d == LOWER_ALPHABET[k]
    ensures c !in UPPER_ALPHABET ==> d == c
  {
    if 'A' <= c <= 'Z' then (c as int + 32) as char else c
  }

  function Lower(s: string): (r: string)
    ensures |r| == |s| && forall i :: 0 <= i < |s| ==> r[i] == LowerChar(s[i])
  {
    seq(|s|, i requires 0 <= i < |s| => LowerChar(s[i]))
  }

  lemma LowerCons(x: char, rest: string)
    ensures Lower([x] + rest) == [LowerChar(x)] + Lower(rest)
  {
    assert forall i :: 0 < i <= |rest| ==> ([x] + rest)[i] == rest[i - 1];
  }

  /** On capitals `LowerChar` is one-to-one. */
  lemma LowerCharOneToOne(a: char, b: char)
    requires 'A' <= a <= 'Z' && 'A' <= b <= 'Z'
    ensures 'a' <= LowerChar(a) <= 'z'
    ensures (LowerChar(a) == LowerChar(b)) == (a == b)
  {
  }

  lemma LowerIsSmall(s: string)
    requires forall i :: 0 <= i < |s| ==> 'A' <= s[i] <= 'Z'
    ensures forall i :: 0 <= i < |s| ==> 'a' <= Lower(s)[i] <= 'z'
  {
    forall i | 0 <= i < |s| ensures 'a' <= Lower(s)[i] <= 'z' {
      LowerCharOneToOne(s[i], s[i]);
    }
  }

  /** Lower-casing a string of capitals gives a string of small letters with the same
      letter counts: the sub-anagram query sees exactly the letters of the draw. */
  lemma {:induction false} LowerKeepsCounts(s: string, c: char)
    requires forall i :: 0 <= i < |s| ==> 'A' <= s[i] <= 'Z'
    requires 'A' <= c <= 'Z'
    ensures forall i :: 0 <= i < |s| ==> 'a' <= Lower(s)[i] <= 'z'
    ensures multiset(Lower(s))[LowerChar(c)] == multiset(s)[c]
  {
    LowerIsSmall(s);
    if s != [] {
      var x, rest := s[0], s[1..];
      LowerKeepsCounts(rest, c);
      assert s == [x] + rest;
      LowerCons(x, rest);
      LowerCharOneToOne(x, c);
      assert multiset(Lower(s)) == multiset{LowerChar(x)} + multiset(Lower(rest));
      assert multiset(s) == multiset{x} + multiset(rest);
    }
  }

  /** The number of positions of `s` holding a character of `alphabet`. */
  function Count(s: string, alphabet: string): (k: nat)
    ensures k <= |s|
  {
    if s == [] then 0 else (if s[0] in alphabet then 1 else 0) + Count(s[1..], alphabet)
  }

  lemma {:induction false} CountConcat(a: string, b: string, alphabet: string)
    ensures Count(a + b, alphabet) == Count(a, alphabet) + Count(b, alphabet)
  {
    if a != [] {
      assert (a + b)[1..] == a[1..] + b;
      CountConcat(a[1..], b, alphabet);
    } else {
      assert a + b == b;
    }
  }

  /** A string drawn entirely from `alphabet` is counted in full; one drawn from a
      disjoint alphabet is not counted at all. */
  lemma {:induction false} CountAllOrNone(s: string, alphabet: string)
    ensures (forall i :: 0 <= i < |s| ==> s[i] in alphabet) ==> Count(s, alphabet) == |s|
    ensures (forall i :: 0 <= i < |s| ==> s[i] !in alphabet) ==> Count(s, alphabet) == 0
  {
    if s != [] {
      CountAllOrNone(s[1..], alphabet);
      assert forall i :: 0 <= i < |s| - 1 ==> s[1..][i] == s[i + 1];
    }
  }

  /** `Count` depends only on the multiset of characters: a permutation keeps every count. */
  lemma {:induction false} CountPermutation(a: string, b: string, alphabet: string)
    requires multiset(a) == multiset(b)
    ensures Count(a, alphabet) == Count(b, alphabet)
    decreases |a|
  {
    if a == [] {
      assert |b| == |multiset(b)| == 0;
    } else {
      var x := a[0];
      assert x in multiset(b);
      var k :| 0 <= k < |b| && b[k] == x;
      var rest := b[..k] + b[k + 1..];
      assert b == b[..k] + [x] + b[k + 1..];
      assert a == [x] + a[1..];
      calc {
        multiset(rest);
        multiset(b[..k]) + multiset(b[k + 1..]);
        multiset(b) - multiset{x};
        multiset(a) - multiset{x};
        multiset(a[1..]);
      }
      CountPermutation(a[1..], rest, alphabet);
      CountConcat(b[..k] + [x], b[k + 1..], alphabet);
      CountConcat(b[..k], [x], alphabet);
      CountConcat(b[..k], b[k + 1..], alphabet);
    }
  }
}

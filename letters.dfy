/** The letter drawer (`pickLetters`): a quota of vowels and consonants, each chosen at
    random from its alphabet, then shuffled. Randomness comes from an injected source
    `rng`, read at successive positions. */
module Letters {
  import opened Text

  const VOWELS: string := "AEIOUY"
  const CONSONANTS: string := "BCDFGHJKLMNPQRSTVWXZ"

  /** The draw size `drawLetters` asks for (the default of `pickLetters`). */
  const DRAW_SIZE: nat := 10

  /** `Math.ceil(n / 3)`, the number of vowels in a draw of `n` letters. */
  function VowelQuota(n: nat): (q: nat)
    ensures n <= 3 * q < n + 3
    ensures q <= n
  {
    (n + 2) / 3
  }

  predicate IsVowelLetter(c: char) {
    c == 'A' || c == 'E' || c == 'I' || c == 'O' || c == 'U' || c == 'Y'
  }

  /** No character is both a vowel and a consonant. */
  lemma AlphabetsDisjoint()
    ensures forall c :: c in CONSONANTS ==> c !in VOWELS
  {
    assert forall c :: c in VOWELS ==> IsVowelLetter(c);
    forall i | 0 <= i < |CONSONANTS| ensures !IsVowelLetter(CONSONANTS[i]) {}
  }

  /** One pass of the counting loop in `pickLetters`: pushes `count` letters onto
      `letters`, the i-th of them the character of `alphabet` at `random(|alphabet| - 1)`,
      read here as roll `rng(offset + i)` reduced into range. */
  method PushLetters(letters: string, alphabet: string, count: nat, rng: nat -> nat, offset: nat)
    returns (r: string)
    requires alphabet != []
    ensures |r| == |letters| + count && r[..|letters|] == letters
    ensures forall k :: |letters| <= k < |r| ==> r[k] == alphabet[rng(offset + k - |letters|) % |alphabet|]
  {
    r := letters;
    for i := 0 to count
      invariant |r| == |letters| + i && r[..|letters|] == letters
      invariant forall k :: |letters| <= k < |r| ==> r[k] == alphabet[rng(offset + k - |letters|) % |alphabet|]
    {
      r := r + [alphabet[rng(offset + i) % |alphabet|]];
    }
  }

  /** lodash `shuffle`: a Fisher-Yates pass over a copy of `s`; step `i` swaps position
      `i` with a position between `i` and the last, chosen by roll `rng(offset + i)`.
      Whatever the rolls, the result is a permutation of `s`. */
  method Shuffle(s: string, rng: nat -> nat, offset: nat) returns (r: string)
    ensures |r| == |s| && multiset(r) == multiset(s)
  {
    r := s;
    var i := 0;
    while i < |r|
      invariant i <= |r| == |s|
      invariant multiset(r) == multiset(s)
    {
      var j := i + rng(offset + i) % (|r| - i);
      r := r[i := r[j]][j := r[i]];
      i := i + 1;
    }
  }

  /** `pickLetters(n)`: exactly `n` letters, `ceil(n / 3)` of them vowels and the rest
      consonants, in an order chosen by the shuffle. */
  method PickLetters(n: nat, rng: nat -> nat) returns (r: string)
    ensures |r| == n
    ensures forall i :: 0 <= i < n ==> r[i] in VOWELS || r[i] in CONSONANTS
    ensures Count(r, VOWELS) == VowelQuota(n)
    ensures Count(r, CONSONANTS) == n - VowelQuota(n)
  {
    var vowelsNumber := VowelQuota(n);
    var letters := PushLetters([], VOWELS, vowelsNumber, rng, 0);
    letters := PushLetters(letters, CONSONANTS, n - vowelsNumber, rng, vowelsNumber);
    r := Shuffle(letters, rng, n);

    var vowels, consonants := letters[..vowelsNumber], letters[vowelsNumber..];
    assert letters == vowels + consonants;
    assert forall i :: 0 <= i < |vowels| ==> vowels[i] in VOWELS;
    assert forall i :: 0 <= i < |consonants| ==> consonants[i] in CONSONANTS;
    AlphabetsDisjoint();
    CountAllOrNone(vowels, VOWELS);
    CountAllOrNone(vowels, CONSONANTS);
    CountAllOrNone(consonants, VOWELS);
    CountAllOrNone(consonants, CONSONANTS);
    CountConcat(vowels, consonants, VOWELS);
    CountConcat(vowels, consonants, CONSONANTS);
    CountPermutation(r, letters, VOWELS);
    CountPermutation(r, letters, CONSONANTS);
    forall i | 0 <= i < n ensures r[i] in VOWELS || r[i] in CONSONANTS {
      assert r[i] in multiset(letters);
    }
  }
}

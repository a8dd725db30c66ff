/** Solution selection at the end of a round (`longestWordsForDraw`): the dictionary
    words formable from the draw, sorted by descending length, first `n` kept. */
module Solutions {
  import opened Text

  /** The number of solutions revealed at timeout (the default of `longestWordsForDraw`). */
  const SOLUTION_COUNT: nat := 5

  predicate NonIncreasing(ws: seq<string>) {
    forall i, j :: 0 <= i < j < |ws| ==> |ws[j]| <= |ws[i]|
  }

  predicate Distinct(ws: seq<string>) {
    forall i, j :: 0 <= i < j < |ws| ==> ws[i] != ws[j]
  }

  /** The words of `ws` of length `len`, in their order in `ws`. */
  function OfLength(ws: seq<string>, len: nat): (r: seq<string>)
    ensures forall i :: 0 <= i < |r| ==> |r[i]| == len
  {
    if ws == [] then []
    else (if |ws[0]| == len then [ws[0]] else []) + OfLength(ws[1..], len)
  }

  /** Places `w` in front of the first word of `ws` that is no longer than it. */
  function Insert(w: string, ws: seq<string>): (r: seq<string>)
    requires NonIncreasing(ws)
    ensures |r| == |ws| + 1 && (r[0] == w || (ws != [] && r[0] == ws[0]))
    ensures NonIncreasing(r)
    ensures multiset(r) == multiset(ws) + multiset{w}
  {
    if ws == [] || |ws[0]| <= |w| then [w] + ws
    else
      assert ws == [ws[0]] + ws[1..];
      [ws[0]] + Insert(w, ws[1..])
  }

  /** `words.sort((a, b) => b.length - a.length)`, taken as the stable sort ECMAScript
      2019 and later require: a stable sort by descending length. */
  function SortByLength(ws: seq<string>): (r: seq<string>)
    ensures |r| == |ws|
    ensures NonIncreasing(r)
    ensures multiset(r) == multiset(ws)
  {
    if ws == [] then []
    else
      assert ws == [ws[0]] + ws[1..];
      Insert(ws[0], SortByLength(ws[1..]))
  }

  lemma OfLengthCons(x: string, ws: seq<string>, len: nat)
    ensures OfLength([x] + ws, len) == (if |x| == len then [x] else []) + OfLength(ws, len)
  {
    assert ([x] + ws)[1..] == ws;
  }

  lemma {:induction false} InsertOfLength(w: string, ws: seq<string>, len: nat)
    requires NonIncreasing(ws)
    ensures OfLength(Insert(w, ws), len) == (if |w| == len then [w] else []) + OfLength(ws, len)
  {
    if ws == [] || |ws[0]| <= |w| {
      OfLengthCons(w, ws, len);
    } else {
      // w goes past ws[0], which is longer: at most one of the two has length len
      var t := Insert(w, ws[1..]);
      InsertOfLength(w, ws[1..], len);
      OfLengthCons(ws[0], t, len);
      OfLengthCons(ws[0], ws[1..], len);
      assert [ws[0]] + ws[1..] == ws;
    }
  }

  /** The sort is stable: the words of any one length keep their input order. */
  lemma {:induction false} SortByLengthStable(ws: seq<string>, len: nat)
    ensures OfLength(SortByLength(ws), len) == OfLength(ws, len)
  {
    if ws != [] {
      SortByLengthStable(ws[1..], len);
      InsertOfLength(ws[0], SortByLength(ws[1..]), len);
    }
  }

  /** `sorted.slice(0, n)` on a sorted list keeps the longest words: each word left out
      is no longer than any word kept. */
  lemma PrefixKeepsLongest(sorted: seq<string>, k: nat)
    requires NonIncreasing(sorted) && k <= |sorted|
    ensures multiset(sorted) - multiset(sorted[..k]) == multiset(sorted[k..])
    ensures forall w, x :: w in multiset(sorted[k..]) && x in sorted[..k] ==> |w| <= |x|
  {
    assert sorted == sorted[..k] + sorted[k..];
    forall w, x | w in multiset(sorted[k..]) && x in sorted[..k] ensures |w| <= |x| {
      var j :| 0 <= j < |sorted[k..]| && sorted[k..][j] == w;
      var i :| 0 <= i < k && sorted[..k][i] == x;
      assert sorted[i] == x && sorted[k + j] == w;
    }
  }

  /** The sort-and-slice part of `longestWordsForDraw`, over the list the dictionary
      returned: `min(n, |candidates|)` words taken from the candidates, longest first. */
  function LongestWords(candidates: seq<string>, n: nat): (r: seq<string>)
    ensures |r| == if n < |candidates| then n else |candidates|
    ensures NonIncreasing(r)
    ensures multiset(r) <= multiset(candidates)
  {
    var sorted := SortByLength(candidates);
    var k := if n < |sorted| then n else |sorted|;
    assert sorted == sorted[..k] + sorted[k..];
    sorted[..k]
  }

  /** No candidate left out by `LongestWords` is longer than a word it keeps. */
  lemma LongestWordsKeepsLongest(candidates: seq<string>, n: nat)
    ensures var r := LongestWords(candidates, n);
      forall w, x :: w in multiset(candidates) - multiset(r) && x in r ==> |w| <= |x|
  {
    var sorted := SortByLength(candidates);
    var k := if n < |sorted| then n else |sorted|;
    PrefixKeepsLongest(sorted, k);
  }

  /** When `LongestWords` keeps fewer than `n` words it keeps every candidate. */
  lemma LongestWordsShortMeansAll(candidates: seq<string>, n: nat)
    ensures |LongestWords(candidates, n)| < n ==> multiset(LongestWords(candidates, n)) == multiset(candidates)
  {
    var sorted := SortByLength(candidates);
    if |LongestWords(candidates, n)| < n {
      assert LongestWords(candidates, n) == sorted;
    }
  }

  /** The contract assumed of the dictionary's sub-anagram query on `letters`: it lists
      every dictionary word whose letters form a sub-multiset of `letters`, nothing
      else, and no word twice. */
  predicate IsSubAnagramList(result: seq<string>, dict: set<string>, letters: string) {
    && (forall i :: 0 <= i < |result| ==> result[i] in dict && multiset(result[i]) <= multiset(letters))
    && (forall w :: w in dict && multiset(w) <= multiset(letters) ==> w in result)
    && Distinct(result)
  }

  /** A word the dictionary can form from `letters`. */
  predicate IsSubAnagram(w: string, dict: set<string>, letters: string) {
    w in dict && multiset(w) <= multiset(letters)
  }

  lemma {:induction false} DistinctCounts(ws: seq<string>)
    requires Distinct(ws)
    ensures forall w :: multiset(ws)[w] <= 1
  {
    if ws != [] {
      var rest := ws[1..];
      assert ws == [ws[0]] + rest;
      DistinctCounts(rest);
      assert ws[0] !in rest;
    }
  }

  lemma CountsAtTwoPositions(ws: seq<string>, i: nat, j: nat)
    requires i < j < |ws|
    ensures multiset(ws)[ws[i]] >= if ws[i] == ws[j] then 2 else 1
  {
    var a, b, c := ws[..i], ws[i + 1..j], ws[j + 1..];
    assert ws == a + [ws[i]] + b + [ws[j]] + c;
  }

  lemma DistinctFromCounts(ws: seq<string>)
    requires forall w :: multiset(ws)[w] <= 1
    ensures Distinct(ws)
  {
    forall i, j | 0 <= i < j < |ws| ensures ws[i] != ws[j] {
      CountsAtTwoPositions(ws, i, j);
    }
  }

  /** `longestWordsForDraw(draw, n)`, given the list the dictionary returns for the
      lower-cased, joined draw: at most `n` words, longest first. The lemmas below relate
      the result to the dictionary. */
  function LongestWordsForDraw(dict: set<string>, draw: string, candidates: seq<string>, n: nat)
    : (r: seq<string>)
    requires IsSubAnagramList(candidates, dict, Lower(draw))
    ensures |r| <= n && NonIncreasing(r)
  {
    LongestWords(candidates, n)
  }

  /** Every solution shown is a dictionary word formable from the draw, and none is shown twice. */
  lemma SolutionsAreDistinctSubAnagrams(dict: set<string>, draw: string, candidates: seq<string>, n: nat)
    requires IsSubAnagramList(candidates, dict, Lower(draw))
    ensures var r := LongestWordsForDraw(dict, draw, candidates, n);
      Distinct(r) && forall i :: 0 <= i < |r| ==> IsSubAnagram(r[i], dict, Lower(draw))
  {
    var r := LongestWordsForDraw(dict, draw, candidates, n);
    DistinctCounts(candidates);
    DistinctFromCounts(r);
    forall i | 0 <= i < |r| ensures IsSubAnagram(r[i], dict, Lower(draw)) {
      assert r[i] in multiset(candidates);
    }
  }

  /** Every formable word that is not shown is no longer than every word shown, and when
      fewer than `n` are shown, every formable word is. */
  lemma SolutionsAreLongest(dict: set<string>, draw: string, candidates: seq<string>, n: nat)
    requires IsSubAnagramList(candidates, dict, Lower(draw))
    ensures var r := LongestWordsForDraw(dict, draw, candidates, n);
      && (forall w, x :: IsSubAnagram(w, dict, Lower(draw)) && w !in r && x in r ==> |w| <= |x|)
      && (|r| < n ==> forall w :: IsSubAnagram(w, dict, Lower(draw)) ==> w in r)
  {
    var r := LongestWordsForDraw(dict, draw, candidates, n);
    LongestWordsKeepsLongest(candidates, n);
    LongestWordsShortMeansAll(candidates, n);
    forall w | IsSubAnagram(w, dict, Lower(draw)) && w !in r
      ensures w in multiset(candidates) - multiset(r)
    {
      assert w in multiset(candidates);
      assert multiset(r)[w] == 0;
    }
    if |r| < n {
      forall w | IsSubAnagram(w, dict, Lower(draw)) ensures w in r {
        assert w in multiset(candidates);
      }
    }
  }
}

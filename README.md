# Scrabble round engine, modelled in Dafny

This models the `Scrabble` game of the quizz bot: one timed round of a word-finding contest.
A round draws ten letters with a vowel quota and shows them. Players then submit words, and
the engine keeps the longest dictionary word submitted so far together with its sender. When
the timer fires, the engine announces the winner (or that nobody answered), lists up to five
of the longest dictionary words that can be formed from the draw, and calls the host's `over`
callback with the winning user or `null`. `stop` cancels the timer and clears the round.

Layout:

- `text.dfy` (module `Text`): `String.prototype.trim`, ASCII lower-casing, and counting the
  characters of a string that belong to an alphabet.
- `letters.dfy` (module `Letters`): `pickLetters`. This covers the vowel quota, the counting
  loop that pushes letters, and the shuffle.
- `solutions.dfy` (module `Solutions`): `longestWordsForDraw`. This covers the stable sort
  by descending length, the slice, and the assumed contract of the dictionary's
  sub-anagram query.
- `round.dfy` (module `Round`): the round's fields and its event log as a value. Each of
  `start`, `handleMessage`, `stop` and `timeout` is a transition function, and the lemmas
  about arbitrating the best answer are proved there.
- `engine.dfy` (module `Engine`): the class `Scrabble`. Its methods update the fields in
  place, and each is proved to leave the object in the state the matching `Round`
  function gives.

Foreign pieces are abstractions:
- `diacritics.remove` is a function `normalize` that the constructor receives.
- The trie is the set `words`.
- lodash's `random` and `shuffle` read an injected source of rolls, `rng: nat -> nat`.
- The host's `output` sink and `over` callback are appends to the `events` log.
- The timer is the flag `armed`. A timer expiry is a call of `Timeout`.

What the source does that a reader might not expect:

- `start` does not clear a best answer left over from earlier. `StartStep` keeps `best`.
- `handleMessage` has no check that a round is in progress. A valid, longer word is recorded
  and announced whenever callbacks are installed, also after `stop` or after the timeout.
  The model takes it that before the first `start` no `output` is installed, so such a
  call throws before it stores anything (`MessageThrows`; see "Left out").
- Empty dictionary lines are not skipped. `LoadLine` inserts whatever the normalized,
  trimmed line is.
- `timeout` clears neither the draw nor the best answer. Only the timer has fired.
- `pickLetters(10)` always yields four vowels and six consonants (`PickLetters`).

## Model

| member | source | states |
|---|---|---|
| `Text.LeadingSpaces` | src/scrabble/Scrabble.ts:56 | the count covers exactly the run of white space the word starts with: everything before it is white space, and the next character, if any, is not |
| `Text.TrailingSpaces` | src/scrabble/Scrabble.ts:56 | the count covers exactly the run of white space the word ends with: everything after it is white space, and the character before it, if any, is not |
| `Text.Trim` | src/scrabble/Scrabble.ts:56 | `trim` keeps one contiguous slice of the line or word, the one starting after its leading white space; everything removed after it is white space, and what it keeps neither starts nor ends with white space |
| `Text.TrimIdempotent` | src/scrabble/Scrabble.ts:56 | trimming an already trimmed answer changes nothing |
| `Text.LowerChar` | src/scrabble/Scrabble.ts:100 | the capital at each place of the alphabet becomes the small letter at the same place, and every other character is left alone |
| `Text.LowerKeepsCounts` | src/scrabble/Scrabble.ts:100 | lower-casing a draw of capitals gives small letters only, and each small letter occurs exactly as often as its capital did, so the sub-anagram query sees the draw's letter counts |
| `Text.CountPermutation` | src/scrabble/Scrabble.ts:88 | two strings with the same multiset of characters have the same number of characters from any alphabet, so a shuffle keeps the vowel and consonant counts |
| `Letters.VowelQuota` | src/scrabble/Scrabble.ts:79 | the quota is `ceil(n / 3)`: the least `q` with `n <= 3q`, and never more than `n` |
| `Letters.PushLetters` | src/scrabble/Scrabble.ts:80-87 | the loop appends exactly `count` letters after the existing ones and leaves those unchanged; each new letter is the alphabet character picked by its roll |
| `Letters.Shuffle` | src/scrabble/Scrabble.ts:88 | the shuffled letters are a permutation of the input, whatever the rolls |
| `Letters.PickLetters` | src/scrabble/Scrabble.ts:77-89 | exactly `n` letters, each from `VOWELS` or `CONSONANTS`; `ceil(n / 3)` are vowels and `n - ceil(n / 3)` are consonants |
| `Solutions.SortByLength` | src/scrabble/Scrabble.ts:101 | the sorted list is in non-increasing length order and is a permutation of the input |
| `Solutions.SortByLengthStable` | src/scrabble/Scrabble.ts:101 | the sort is stable: the words of each length appear in their input order |
| `Solutions.LongestWords` | src/scrabble/Scrabble.ts:101-102 | the slice holds `min(n, number of candidates)` words, drawn from the candidates, longest first |
| `Solutions.LongestWordsKeepsLongest` | src/scrabble/Scrabble.ts:101-102 | no candidate left out by the slice is longer than a word it keeps |
| `Solutions.LongestWordsShortMeansAll` | src/scrabble/Scrabble.ts:102 | if fewer than `n` words are kept, every candidate is kept |
| `Solutions.LongestWordsForDraw` | src/scrabble/Scrabble.ts:99-103 | at most `n` solutions, in non-increasing length order |
| `Solutions.SolutionsAreDistinctSubAnagrams` | src/scrabble/Scrabble.ts:99-103 | every solution is a dictionary word whose letters form a sub-multiset of the lower-cased draw, and none is listed twice |
| `Solutions.SolutionsAreLongest` | src/scrabble/Scrabble.ts:99-103 | every formable dictionary word not listed is no longer than every word listed; if fewer than `n` are listed, all formable words are listed |
| `Round.Initial` | src/scrabble/Scrabble.ts:22-28 | a new engine has no draw, no best answer, no pending timer, no callbacks and no output |
| `Round.StartStep` | src/scrabble/Scrabble.ts:91-97 | the draw is stored and shown once, and the timer is armed; the best answer is kept as it was |
| `Round.MessageStep` | src/scrabble/Scrabble.ts:55-64 | a submission never touches the draw, the timer or the callbacks, and it keeps the round invariant |
| `Round.InvalidWordIgnored` | src/scrabble/Scrabble.ts:55-58 | a word that is not in the dictionary after trimming and diacritic removal leaves the best answer and the output unchanged |
| `Round.MessageReplacesIffLonger` | src/scrabble/Scrabble.ts:58-62 | the round changes exactly when the word is valid, there is no best answer yet or the word is strictly longer, and the callbacks are installed; it then becomes `(user, trimmed word)` after exactly one announcement naming both |
| `Round.TieKeepsFirst` | src/scrabble/Scrabble.ts:59 | a word as long as the best answer does not replace it, so the first longest wins |
| `Round.AfterMessages` | src/scrabble/Scrabble.ts:55-64 | a run of submissions never changes the draw, the timer or the callbacks |
| `Round.BestNeverShrinks` | src/scrabble/Scrabble.ts:55-64 | over any run of submissions, the best answer never gets shorter, and once set it is never unset |
| `Round.BestIsFirstLongest` | src/scrabble/Scrabble.ts:55-64 | in a started round with no best answer, after any run of submissions the best answer is the first valid submission of maximal trimmed length, with its sender; there is no best answer exactly when no submission was valid |
| `Round.StopStep` | src/scrabble/Scrabble.ts:66-70 | afterwards the draw, the best answer and the pending timer are all absent, and nothing is sent |
| `Round.StopIdempotent` | src/scrabble/Scrabble.ts:66-75 | stopping twice gives the same state as stopping once |
| `Round.TimeoutStep` | src/scrabble/Scrabble.ts:105-119 | the timer is spent, and the draw, the best answer and the callbacks are unchanged |
| `Round.TimeoutReports` | src/scrabble/Scrabble.ts:105-118 | the messages are "Timeout!", then the winner with the word or the "nobody" notice, then the solutions; `over` is called exactly once, last, with the best user or null |
| `Engine.Scrabble.constructor` | src/scrabble/Scrabble.ts:30-33 | a new game has an empty dictionary and the initial round state |
| `Engine.Scrabble.LoadLine` | src/scrabble/Scrabble.ts:42-45 | a dictionary line is trimmed, stripped of diacritics and added to the word set; nothing else changes |
| `Engine.Scrabble.Start` | src/scrabble/Scrabble.ts:48-53 | the object takes the `StartStep` state, and its draw has ten letters, four vowels and six consonants |
| `Engine.Scrabble.HandleMessage` | src/scrabble/Scrabble.ts:55-64 | the object takes the `MessageStep` state; the call throws exactly when it would announce a word before any `start` |
| `Engine.Scrabble.Stop` | src/scrabble/Scrabble.ts:66-75 | the object takes the `StopStep` state |
| `Engine.Scrabble.Timeout` | src/scrabble/Scrabble.ts:105-119 | the object takes the `TimeoutStep` state, and the solutions shown are `longestWordsForDraw` of the current draw |

## Left out

- Dictionary loading (`fs.createReadStream`, `readline`, the file path under the root
  directory) is asynchronous file I/O and is not modelled. `LoadLine` models only the
  per-line handler. The model does not represent when loading completes or a missing file.
- `setTimeout`, `clearTimeout` and the 30-second duration are not modelled. The pending timer
  is the flag `armed`, and its expiry is a call of `Timeout`.
- Engine.Scrabble.Start: calling `start` twice without `stop` leaves the first timer pending
  in the source, where `stop` can no longer clear it. The model keeps a single flag, so it
  does not represent that orphaned timer.
- The trie library is not modelled. Its words are a set, and the case handling it does
  internally is not modelled.
- Engine.Scrabble.Timeout: the result of `getSubAnagrams` is a parameter. Its contract is
  assumed as a precondition (`IsSubAnagramList`): it lists every dictionary word formable
  from the letters, nothing else, and no word twice.
- `diacritics.remove` is an arbitrary function supplied to the constructor. What it maps
  is not modelled.
- lodash `random` and `shuffle` are not modelled as random. Their choices come from
  injected rolls, and uniformity is not modelled.
- The wording of output lines and how a user is rendered into text are not modelled. The
  model records which message is sent and the user, word or letters it carries.
- String lengths: the source compares lengths in UTF-16 code units. The model counts
  Unicode scalar values, so words with characters outside the Basic Multilingual Plane
  can compare differently.
- Engine.Scrabble.HandleMessage: the `output` and `over` fields belong to the host class
  `AbstractGame`, which is not part of this model. The model assumes they are unset until
  the first `start`, so that `thrown` marks a call that would announce a word before then.
- Solutions.SortByLengthStable: `Array.prototype.sort` is stable only from ECMAScript 2019
  on. The tie order proved here assumes such an engine; older engines may order words of
  equal length differently.
- Text.Lower: only ASCII letters are lower-cased. The draw consists of ASCII capitals, so
  this is exact for the one string the source lower-cases.
- Letters.PickLetters: `n` is a natural number. The source only calls it with its default
  of 10, and negative or fractional arguments are not modelled.
- The `AbstractGame` host class and the static `title` and `rules` strings are not part of
  this model.

/** The `Scrabble` game object: its fields and the methods that update them in place.
    Every method is proved to leave the object in the state the matching function of
    module Round gives, so the lemmas proved there hold of the object. */
module Engine {
  import opened Text
  import opened Letters
  import opened Solutions
  import opened Round

  class Scrabble<U> {
    /** `diacritics.remove`, a foreign function, supplied by the caller. */
    const normalize: string -> string
    /** The words inserted into the trie. */
    var words: set<string>
    var currentDraw: Option<string>
    var bestAnswer: Option<Best<U>>
    /** The timer `to` is set and has not yet fired or been cleared. */
    var armed: bool
    /** `start` has installed the host's `output` and `over` callbacks. */
    var started: bool
    /** Every call of `output` and `over`, in order. */
    var events: seq<Event<U>>

    ghost function State(): RoundState<U>
      reads this
    {
      RoundState(currentDraw, bestAnswer, armed, started, events)
    }

    ghost predicate Valid()
      reads this
    {
      Round.Valid(State())
    }

    /** The constructor; the dictionary fills in as `LoadLine` receives its lines. */
    constructor (normalize: string -> string)
      ensures Valid() && this.normalize == normalize
      ensures words == {} && State() == Initial()
    {
      this.normalize := normalize;
      words := {};
      currentDraw, bestAnswer := None, None;
      armed, started := false, false;
      events := [];
    }

    /** The `line` handler of `loadDict`: the trimmed line, diacritics removed, joins the
        dictionary. Nothing else changes. */
    method LoadLine(line: string)
      modifies this`words
      ensures words == old(words) + {normalize(Trim(line))}
    {
      var word := normalize(Trim(line));
      words := words + {word};
    }

    /** `start` and `drawLetters`: ten letters are drawn with the vowel quota, stored and
        shown, and the timer is armed. */
    method Start(rng: nat -> nat)
      requires Valid()
      modifies this`currentDraw, this`armed, this`started, this`events
      ensures Valid() && currentDraw.Some?
      ensures State() == StartStep(old(State()), currentDraw.value)
      ensures |currentDraw.value| == DRAW_SIZE
      ensures Count(currentDraw.value, VOWELS) == VowelQuota(DRAW_SIZE)
      ensures Count(currentDraw.value, CONSONANTS) == DRAW_SIZE - VowelQuota(DRAW_SIZE)
    {
      started := true;
      var letters := PickLetters(DRAW_SIZE, rng);
      currentDraw := Some(letters);
      events := events + [DrawShown(letters)];
      armed := true;
    }

    /** `handleMessage(word, user)`; `thrown` reports the call that fails because no
        `output` is installed yet. */
    method HandleMessage(word: string, user: U) returns (thrown: bool)
      requires Valid()
      modifies this`bestAnswer, this`events
      ensures Valid()
      ensures State() == MessageStep(old(State()), words, normalize, word, user)
      ensures thrown == MessageThrows(old(State()), words, normalize, word)
    {
      thrown := false;
      var answer := Trim(word);
      var isValidWord := normalize(answer) in words;
      if isValidWord {
        if bestAnswer.None? || |bestAnswer.value.answer| < |answer| {
          if !started {
            thrown := true;
            return;
          }
          events := events + [NewBest(user, answer)];
          bestAnswer := Some(Best(user, answer));
        }
      }
    }

    /** `stop` and `clearTimers`. */
    method Stop()
      requires Valid()
      modifies this`currentDraw, this`bestAnswer, this`armed
      ensures Valid()
      ensures State() == StopStep(old(State()))
    {
      armed := false;
      currentDraw := None;
      bestAnswer := None;
    }

    /** The timer fires: `timeout`, given what the dictionary's sub-anagram query returns
        for the lower-cased draw. */
    method Timeout(candidates: seq<string>)
      requires Valid() && armed
      requires IsSubAnagramList(candidates, words, Lower(currentDraw.value))
      modifies this`armed, this`events
      ensures Valid()
      ensures State() == TimeoutStep(old(State()),
        LongestWordsForDraw(words, currentDraw.value, candidates, SOLUTION_COUNT))
    {
      armed := false;
      events := events + [TimedOut];
      var longestWords := LongestWordsForDraw(words, currentDraw.value, candidates, SOLUTION_COUNT);
      if bestAnswer.Some? {
        events := events + [Winner(bestAnswer.value.user, bestAnswer.value.answer)];
        events := events + [SolutionsShown(longestWords)];
        events := events + [Over(Some(bestAnswer.value.user))];
      } else {
        events := events + [Nobody];
        events := events + [SolutionsShown(longestWords)];
        events := events + [Over(None)];
      }
    }
  }
}

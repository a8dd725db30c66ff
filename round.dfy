/** The round engine's state and its transitions, as values: what `start`, `handleMessage`,
    `stop` and `timeout` do to the fields `currentDraw`, `bestAnswer` and the timer, and what
    they send to the host's output sink and `over` callback. The class in module Engine
    is proved to follow these functions step by step. */
module Round {
  import opened Text

  datatype Option<T> = None | Some(value: T)

  /** The `bestAnswer` record: who answered, and the trimmed word. */
  datatype Best<U> = Best(user: U, answer: string)

  /** One call of the host's output sink, or of its `over` callback. Only which message is
      sent and the user, word or letters it carries are modelled, not its wording. */
  datatype Event<U> =
    | DrawShown(letters: string)            // "Find the longest word containing ..."
    | NewBest(user: U, answer: string)      // "<user> has now the best answer: <answer>"
    | TimedOut                              // "Timeout!"
    | Winner(user: U, answer: string)       // "The best answer has been given by ..."
    | Nobody                                // "Nobody found an answer! :("
    | SolutionsShown(words: seq<string>)    // "Possible solutions: ..."
    | Over(winner: Option<U>)               // over(user) or over(null)

  /** The fields of a round: the current draw, the best answer, whether the timer is
      pending, whether `start` has installed the host's `output` and `over` callbacks, and
      everything sent to them so far. */
  datatype RoundState<U> = RoundState(
    draw: Option<string>,
    best: Option<Best<U>>,
    armed: bool,
    started: bool,
    events: seq<Event<U>>)

  /** A pending timer always belongs to a round that `start` set up. */
  predicate Valid<U>(s: RoundState<U>) {
    s.armed ==> s.draw.Some? && s.started
  }

  /** A fresh engine: nothing drawn, no answer, no timer, no callbacks yet. */
  function Initial<U>(): (s: RoundState<U>)
    ensures Valid(s) && s.draw.None? && !s.armed && !s.started && s.best.None? && s.events == []
  {
    RoundState(None, None, false, false, [])
  }

  /** `start` followed by `drawLetters`, given the letters `pickLetters` returned: the draw
      is stored and shown, and the timer armed. A best answer left from before is kept. */
  function StartStep<U>(s: RoundState<U>, letters: string): (r: RoundState<U>)
    ensures Valid(r) && r.armed && r.started && r.draw == Some(letters)
    ensures r.best == s.best
    ensures r.events == s.events + [DrawShown(letters)]
  {
    RoundState(Some(letters), s.best, true, true, s.events + [DrawShown(letters)])
  }

  /** The dictionary check of `handleMessage`: the trimmed word, with diacritics removed by
      `normalize`, is a dictionary word. */
  predicate IsValidWord(dict: set<string>, normalize: string -> string, word: string) {
    normalize(Trim(word)) in dict
  }

  /** The replacement test of `handleMessage`: there is no best answer yet, or `answer` is
      strictly longer than it. */
  predicate Beats<U>(best: Option<Best<U>>, answer: string) {
    best.None? || |best.value.answer| < |answer|
  }

  /** `handleMessage` would announce `word` as the new best answer. */
  predicate Improves<U>(s: RoundState<U>, dict: set<string>, normalize: string -> string, word: string) {
    IsValidWord(dict, normalize, word) && Beats(s.best, Trim(word))
  }

  /** Before the first `start` the host's `output` is not installed, so a submission that
      would be announced makes `handleMessage` throw, before the best answer is stored. */
  predicate MessageThrows<U>(s: RoundState<U>, dict: set<string>, normalize: string -> string, word: string) {
    Improves(s, dict, normalize, word) && !s.started
  }

  /** `handleMessage(word, user)`. */
  function MessageStep<U>(s: RoundState<U>, dict: set<string>, normalize: string -> string,
                          word: string, user: U): (r: RoundState<U>)
    ensures Valid(s) ==> Valid(r)
    ensures r.draw == s.draw && r.armed == s.armed && r.started == s.started
  {
    var answer := Trim(word);
    if Improves(s, dict, normalize, word) && s.started then
      s.(best := Some(Best(user, answer)), events := s.events + [NewBest(user, answer)])
    else
      s
  }

  /** `stop()`: the timer is cancelled, the draw and the best answer deleted; nothing is
      sent. */
  function StopStep<U>(s: RoundState<U>): (r: RoundState<U>)
    ensures Valid(r) && !r.armed && r.draw.None? && r.best.None?
    ensures r.started == s.started && r.events == s.events
  {
    s.(draw := None, best := None, armed := false)
  }

  /** The messages `timeout` sends after "Timeout!": the winner and its word, or the
      "nobody" notice; then the solutions; then `over` with the winner or null. */
  function Verdict<U>(best: Option<Best<U>>, solutions: seq<string>): seq<Event<U>> {
    match best
    case Some(b) => [Winner(b.user, b.answer), SolutionsShown(solutions), Over(Some(b.user))]
    case None => [Nobody, SolutionsShown(solutions), Over(None)]
  }

  /** The timer fires and `timeout` runs, given the solutions `longestWordsForDraw` found.
      The draw and the best answer stay as they are. */
  function TimeoutStep<U>(s: RoundState<U>, solutions: seq<string>): (r: RoundState<U>)
    requires s.armed
    ensures Valid(s) ==> Valid(r)
    ensures !r.armed && r.draw == s.draw && r.best == s.best && r.started == s.started
  {
    s.(armed := false, events := s.events + [TimedOut] + Verdict(s.best, solutions))
  }

  /** The number of calls of `over` in an event log. */
  function OverCalls<U>(events: seq<Event<U>>): nat {
    if events == [] then 0
    else OverCalls(events[..|events| - 1]) + (if events[|events| - 1].Over? then 1 else 0)
  }

  lemma {:induction false} OverCallsConcat<U>(a: seq<Event<U>>, b: seq<Event<U>>)
    ensures OverCalls(a + b) == OverCalls(a) + OverCalls(b)
    decreases |b|
  {
    if b == [] {
      assert a + b == a;
    } else {
      assert (a + b)[..|a + b| - 1] == a + b[..|b| - 1];
      OverCallsConcat(a, b[..|b| - 1]);
    }
  }

  /** `timeout` sends "Timeout!" first, then exactly one winner line or "nobody" line
      naming the stored best answer, then the solutions, and calls `over` exactly once,
      last, with the best answer's user or null. */
  lemma TimeoutReports<U>(s: RoundState<U>, solutions: seq<string>)
    requires s.armed
    ensures var r := TimeoutStep(s, solutions); var n := |s.events|;
      && |r.events| == n + 4 && r.events[..n] == s.events
      && r.events[n] == TimedOut
      && (match s.best
          case Some(b) => r.events[n + 1] == Winner(b.user, b.answer)
          case None => r.events[n + 1] == Nobody)
      && r.events[n + 2] == SolutionsShown(solutions)
      && r.events[n + 3] == Over(if s.best.Some? then Some(s.best.value.user) else None)
      && OverCalls(r.events) == OverCalls(s.events) + 1
  {
    var r := TimeoutStep(s, solutions);
    var tail := [TimedOut] + Verdict(s.best, solutions);
    assert r.events == s.events + tail;
    OverCallsConcat(s.events, tail);
    NoOverCalls(tail[..3]);
    OverCallsConcat(tail[..3], [tail[3]]);
    assert tail == tail[..3] + [tail[3]];
  }

  lemma {:induction false} NoOverCalls<U>(events: seq<Event<U>>)
    requires forall i :: 0 <= i < |events| ==> !events[i].Over?
    ensures OverCalls(events) == 0
  {
    if events != [] {
      NoOverCalls(events[..|events| - 1]);
    }
  }

  /** An invalid word leaves the round as it was and sends nothing. */
  lemma InvalidWordIgnored<U>(s: RoundState<U>, dict: set<string>, normalize: string -> string,
                              word: string, user: U)
    requires !IsValidWord(dict, normalize, word)
    ensures MessageStep(s, dict, normalize, word, user) == s
  {
  }

  /** A submission changes the round exactly when it is a dictionary word strictly longer
      than the best answer (or the first one) and the callbacks are installed; it then
      becomes the best answer, with its sender, after exactly one announcement naming
      both. Otherwise nothing changes and nothing is sent. */
  lemma MessageReplacesIffLonger<U>(s: RoundState<U>, dict: set<string>, normalize: string -> string,
                                    word: string, user: U)
    ensures var r := MessageStep(s, dict, normalize, word, user);
      && (r != s <==> Improves(s, dict, normalize, word) && s.started)
      && (r != s ==> r.best == Some(Best(user, Trim(word)))
                     && r.events == s.events + [NewBest(user, Trim(word))])
  {
    var r := MessageStep(s, dict, normalize, word, user);
    if Improves(s, dict, normalize, word) && s.started {
      assert |r.events| == |s.events| + 1;
    }
  }

  /** An equally long valid word does not replace the best answer: the first one wins. */
  lemma TieKeepsFirst<U>(s: RoundState<U>, dict: set<string>, normalize: string -> string,
                         word: string, user: U)
    requires s.best.Some? && |Trim(word)| == |s.best.value.answer|
    ensures MessageStep(s, dict, normalize, word, user) == s
  {
  }

  /** `handleMessage` applied to a sequence of (word, user) submissions, in order. */
  function AfterMessages<U>(s: RoundState<U>, dict: set<string>, normalize: string -> string,
                            msgs: seq<(string, U)>): (r: RoundState<U>)
    ensures r.draw == s.draw && r.armed == s.armed && r.started == s.started
  {
    if msgs == [] then s
    else
      var last := msgs[|msgs| - 1];
      MessageStep(AfterMessages(s, dict, normalize, msgs[..|msgs| - 1]), dict, normalize, last.0, last.1)
  }

  /** The best answer never gets shorter and, once set, is never unset by submissions. */
  lemma {:induction false} BestNeverShrinks<U>(s: RoundState<U>, dict: set<string>,
                                               normalize: string -> string, msgs: seq<(string, U)>)
    ensures var r := AfterMessages(s, dict, normalize, msgs);
      s.best.Some? ==> r.best.Some? && |s.best.value.answer| <= |r.best.value.answer|
  {
    if msgs != [] {
      BestNeverShrinks(s, dict, normalize, msgs[..|msgs| - 1]);
    }
  }

  /** How a submission competes: the length of its trimmed word if it is a dictionary
      word, and -1 (below every word) if it is not. */
  function Score(dict: set<string>, normalize: string -> string, word: string): int {
    if IsValidWord(dict, normalize, word) then |Trim(word)| else -1
  }

  /** Submission `k` is a dictionary word at least as long as every valid submission, and
      strictly longer than every valid submission before it. */
  predicate IsFirstLongest<U>(dict: set<string>, normalize: string -> string,
                              msgs: seq<(string, U)>, k: int) {
    && 0 <= k < |msgs|
    && IsValidWord(dict, normalize, msgs[k].0)
    && (forall j :: 0 <= j < |msgs| ==> Score(dict, normalize, msgs[j].0) <= Score(dict, normalize, msgs[k].0))
    && (forall j :: 0 <= j < k ==> Score(dict, normalize, msgs[j].0) < Score(dict, normalize, msgs[k].0))
  }

  /** The first valid submission of a sequence that had none is the first longest. */
  lemma FirstValid<U>(dict: set<string>, normalize: string -> string,
                      init: seq<(string, U)>, last: (string, U))
    requires forall j :: 0 <= j < |init| ==> !IsValidWord(dict, normalize, init[j].0)
    requires IsValidWord(dict, normalize, last.0)
    ensures IsFirstLongest(dict, normalize, init + [last], |init|)
  {
    var msgs := init + [last];
    assert forall j :: 0 <= j < |init| ==> msgs[j] == init[j];
  }

  /** A submission scoring above the first longest one becomes the first longest. */
  lemma LongerTakesOver<U>(dict: set<string>, normalize: string -> string,
                           init: seq<(string, U)>, k: int, last: (string, U))
    requires IsFirstLongest(dict, normalize, init, k)
    requires Score(dict, normalize, init[k].0) < Score(dict, normalize, last.0)
    ensures IsFirstLongest(dict, normalize, init + [last], |init|)
  {
    var msgs := init + [last];
    assert forall j :: 0 <= j < |init| ==> msgs[j] == init[j];
  }

  /** A submission scoring no higher leaves the first longest one in place. */
  lemma OthersKeepFirst<U>(dict: set<string>, normalize: string -> string,
                           init: seq<(string, U)>, k: int, last: (string, U))
    requires IsFirstLongest(dict, normalize, init, k)
    requires Score(dict, normalize, last.0) <= Score(dict, normalize, init[k].0)
    ensures IsFirstLongest(dict, normalize, init + [last], k)
  {
    var msgs := init + [last];
    assert forall j :: 0 <= j < |init| ==> msgs[j] == init[j];
  }

  /** Over a round that `start` set up with no best answer, the best answer after any
      sequence of submissions is the first longest valid submission, with its sender; if
      there is none, no best answer is set. */
  lemma {:induction false} BestIsFirstLongest<U>(s: RoundState<U>, dict: set<string>,
                                                 normalize: string -> string, msgs: seq<(string, U)>)
    requires s.started && s.best.None?
    ensures var r := AfterMessages(s, dict, normalize, msgs);
      && (r.best.None? <==> forall j :: 0 <= j < |msgs| ==> !IsValidWord(dict, normalize, msgs[j].0))
      && (r.best.Some? ==> exists k :: IsFirstLongest(dict, normalize, msgs, k)
                                      && r.best.value == Best(msgs[k].1, Trim(msgs[k].0)))
  {
    if msgs != [] {
      var init := msgs[..|msgs| - 1];
      var last := msgs[|msgs| - 1];
      assert msgs == init + [last];
      BestIsFirstLongest(s, dict, normalize, init);
      var p := AfterMessages(s, dict, normalize, init);
      var r := MessageStep(p, dict, normalize, last.0, last.1);
      assert AfterMessages(s, dict, normalize, msgs) == r;
      if p.best.None? {
        if IsValidWord(dict, normalize, last.0) {
          FirstValid(dict, normalize, init, last);
          assert IsFirstLongest(dict, normalize, msgs, |init|);
        } else {
          assert r == p;
        }
      } else {
        var k :| IsFirstLongest(dict, normalize, init, k)
                 && p.best.value == Best(init[k].1, Trim(init[k].0));
        if Improves(p, dict, normalize, last.0) {
          LongerTakesOver(dict, normalize, init, k, last);
          assert IsFirstLongest(dict, normalize, msgs, |init|);
        } else {
          OthersKeepFirst(dict, normalize, init, k, last);
          assert msgs[k] == init[k];
          assert IsFirstLongest(dict, normalize, msgs, k);
        }
      }
    }
  }

  /** `stop` is idempotent. */
  lemma StopIdempotent<U>(s: RoundState<U>)
    ensures StopStep(StopStep(s)) == StopStep(s)
  {
  }
}

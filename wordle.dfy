/** A model of the Wordle game-state object of wordle.py: a fixed secret,
    an append-only history of guesses, the observers over that history, and
    the can_guess-gated loop that drives a session. */
module WordleGame {

  /** The most attempts a session allows (class constant MAX_GUESSES). */
  const MAX_GUESSES: int := 6

  /** Declared by the class (WORD_LENGTH) but used by no operation:
      no guess is checked against it. */
  const WORD_LENGTH: int := 5

  // ---------------------------------------------------------------------
  // The game state as a value: the secret and the history of guesses.
  // The class below exposes these through its fields.
  // ---------------------------------------------------------------------

  /** The last guess equals the secret. An empty history is not solved
      (in the source the empty list itself is the falsy answer). */
  predicate Solved(secret: string, history: seq<string>) {
    history != [] && history[|history| - 1] == secret
  }

  /** Attempts left; not clamped, so negative once the history is longer
      than MAX_GUESSES. */
  function Remaining(history: seq<string>): int {
    MAX_GUESSES - |history|
  }

  /** The gate the driver loop tests: attempts are left and the game is not won. */
  predicate MayGuess(secret: string, history: seq<string>) {
    |history| < MAX_GUESSES && !Solved(secret, history)
  }

  /** Out of attempts: the history has reached MAX_GUESSES entries. */
  predicate OutOfAttempts(history: seq<string>) {
    |history| >= MAX_GUESSES
  }

  /** The outcome of a Python call: a value, or an exception with its message. */
  datatype Outcome<T> = Returns(value: T) | Raises(message: string)

  // ---------------------------------------------------------------------
  // Properties of the observers
  // ---------------------------------------------------------------------

  /** Whatever the word, after appending it the game is solved exactly when
      the word equals the secret, character by character (no case folding). */
  lemma SolvedAfterGuess(secret: string, history: seq<string>, word: string)
    ensures Solved(secret, history + [word]) <==> word == secret
  {
  }

  /** Each recorded guess takes exactly one attempt, with no lower bound. */
  lemma RemainingAfterGuess(history: seq<string>, word: string)
    ensures Remaining(history + [word]) == Remaining(history) - 1
  {
  }

  /** The gate closes exactly when the game is won or out of attempts. */
  lemma GateClosedIffFinished(secret: string, history: seq<string>)
    ensures !MayGuess(secret, history) <==> Solved(secret, history) || OutOfAttempts(history)
  {
  }

  /** Out of attempts means no attempt remains. */
  lemma OutOfAttemptsIffNoneRemaining(history: seq<string>)
    ensures OutOfAttempts(history) <==> Remaining(history) <= 0
  {
  }

  /** Nothing stops a caller from guessing past the limit: once MAX_GUESSES
      guesses are recorded the gate is closed whatever they were, and one
      more guess leaves -1 attempts, which the gated loop never reaches. */
  lemma RemainingPastGate(secret: string, history: seq<string>, word: string)
    requires |history| == MAX_GUESSES
    ensures !MayGuess(secret, history)
    ensures Remaining(history + [word]) == -1
  {
  }

  // ---------------------------------------------------------------------
  // The game object
  // ---------------------------------------------------------------------

  class Wordle {
    /** Set once by the constructor and never reassigned. */
    const secret: string
    /** The guesses in the order they were made; only ever appended to. */
    var guesses: seq<string>

    constructor (secret: string)
      ensures this.secret == secret && guesses == []
      ensures !IsSolved() && CanGuess() && !IsOver()
      ensures RemainingGuesses() == MAX_GUESSES
    {
      this.secret := secret;
      guesses := [];
    }

    /** The most recent guess is the secret. */
    predicate IsSolved()
      reads this
      ensures IsSolved() <==> guesses != [] && guesses[|guesses| - 1] == secret
    {
      Solved(secret, guesses)
    }

    /** A further guess is allowed: attempts remain and the game is not won. */
    predicate CanGuess()
      reads this
      ensures CanGuess() <==> RemainingGuesses() > 0 && !IsSolved()
    {
      MayGuess(secret, guesses)
    }

    /** Attempts left, counted from MAX_GUESSES down by one per guess. */
    function RemainingGuesses(): (r: int)
      reads this
      ensures r + |guesses| == MAX_GUESSES
    {
      Remaining(guesses)
    }

    /** Records any word, unvalidated and unnormalised, and reports whether
        it is the secret. */
    method Guess(word: string) returns (correct: bool)
      modifies this
      ensures guesses == old(guesses) + [word]
      ensures correct <==> word == secret
      ensures IsSolved() == correct
      ensures RemainingGuesses() == old(RemainingGuesses()) - 1
    {
      guesses := guesses + [word];
      correct := secret == word;
    }

    /** Reveals the secret. */
    function Display(): (r: string)
      reads this
      ensures r == secret
    {
      secret
    }

    /** What the source's is_over does: it reads `self.max_guesses`, an
        attribute the class never defines (the constant is MAX_GUESSES), so
        every call raises AttributeError whatever the history. */
    function IsOverAsWritten(): (r: Outcome<bool>)
      reads this
      ensures r.Raises?
    {
      Raises("'Wordle' object has no attribute 'max_guesses'")
    }

    /** The evident intent of is_over: out of attempts. It does not look at
        IsSolved, so a game won early is not over. */
    predicate IsOver()
      reads this
      ensures IsOver() <==> RemainingGuesses() <= 0
    {
      OutOfAttempts(guesses)
    }
  }

  /** On a fresh game is_over as written raises where its intended answer is false. */
  lemma IsOverAsWrittenRaisesOnFreshGame(game: Wordle)
    requires game.guesses == []
    ensures game.IsOverAsWritten() == Raises("'Wordle' object has no attribute 'max_guesses'")
    ensures !game.IsOver()
  {
  }

  // ---------------------------------------------------------------------
  // The gate: guesses made only while the gate is open
  // ---------------------------------------------------------------------

  /** Every entry of the history was recorded while the gate was open. */
  predicate Gated(secret: string, history: seq<string>) {
    forall k :: 0 <= k < |history| ==> MayGuess(secret, history[..k])
  }

  /** A gated history never exceeds MAX_GUESSES entries. */
  lemma GatedBounded(secret: string, history: seq<string>)
    requires Gated(secret, history)
    ensures 0 <= |history| <= MAX_GUESSES
    ensures Remaining(history) >= 0
  {
    if history != [] {
      assert MayGuess(secret, history[..|history| - 1]);
    }
  }

  /** In a gated history only the last entry can be the secret: the gate
      closes at the first correct guess. */
  lemma GatedOnlyLastWins(secret: string, history: seq<string>)
    requires Gated(secret, history)
    ensures forall i :: 0 <= i < |history| - 1 ==> history[i] != secret
  {
    forall i | 0 <= i < |history| - 1
      ensures history[i] != secret
    {
      var prefix := history[..i + 1];
      assert MayGuess(secret, prefix);
      assert prefix[|prefix| - 1] == history[i];
    }
  }

  /** Guessing while the gate is open keeps the history gated. */
  lemma GatedExtend(secret: string, history: seq<string>, word: string)
    requires Gated(secret, history) && MayGuess(secret, history)
    ensures Gated(secret, history + [word])
  {
    var next := history + [word];
    forall k | 0 <= k < |next|
      ensures MayGuess(secret, next[..k])
    {
      if k < |history| {
        assert next[..k] == history[..k];
      } else {
        assert next[..k] == history;
      }
    }
  }

  // ---------------------------------------------------------------------
  // The session driven by main
  // ---------------------------------------------------------------------

  /** The history a session ends with when it starts from `history` and the
      player types inputs(i) as the i-th guess: guess while the gate is open. */
  function Play(secret: string, inputs: nat -> string, history: seq<string>): seq<string>
    decreases MAX_GUESSES - |history|
  {
    if MayGuess(secret, history) then Play(secret, inputs, history + [inputs(|history|)])
    else history
  }

  /** A session only appends, stays within MAX_GUESSES and ends with the gate closed. */
  lemma {:induction false} PlayStops(secret: string, inputs: nat -> string, history: seq<string>)
    requires |history| <= MAX_GUESSES
    ensures history <= Play(secret, inputs, history)
    ensures |Play(secret, inputs, history)| <= MAX_GUESSES
    ensures !MayGuess(secret, Play(secret, inputs, history))
    decreases MAX_GUESSES - |history|
  {
    if MayGuess(secret, history) {
      PlayStops(secret, inputs, history + [inputs(|history|)]);
    }
  }

  /** The i-th recorded guess is the i-th word typed. */
  lemma {:induction false} PlayFollowsInputs(secret: string, inputs: nat -> string, history: seq<string>)
    requires forall i :: 0 <= i < |history| ==> history[i] == inputs(i)
    ensures var r := Play(secret, inputs, history);
      forall i :: 0 <= i < |r| ==> r[i] == inputs(i)
    decreases MAX_GUESSES - |history|
  {
    if MayGuess(secret, history) {
      var next := history + [inputs(|history|)];
      assert forall i :: 0 <= i < |next| ==> next[i] == inputs(i);
      PlayFollowsInputs(secret, inputs, next);
    }
  }

  /** A session guesses only through the gate. */
  lemma {:induction false} PlayGated(secret: string, inputs: nat -> string, history: seq<string>)
    requires Gated(secret, history)
    ensures Gated(secret, Play(secret, inputs, history))
    decreases MAX_GUESSES - |history|
  {
    if MayGuess(secret, history) {
      GatedExtend(secret, history, inputs(|history|));
      PlayGated(secret, inputs, history + [inputs(|history|)]);
    }
  }

  /** The loop of main without its terminal I/O: `inputs` stands for the
      words typed at the prompt, in order. Returns the final history. */
  method RunSession(secret: string, inputs: nat -> string) returns (history: seq<string>)
    ensures history == Play(secret, inputs, [])
    ensures 0 < |history| <= MAX_GUESSES
    ensures Solved(secret, history) || |history| == MAX_GUESSES
    ensures forall i :: 0 <= i < |history| ==> history[i] == inputs(i)
    ensures forall i :: 0 <= i < |history| - 1 ==> history[i] != secret
  {
    var game := new Wordle(secret);
    var typed := 0;
    while game.CanGuess()
      invariant game.secret == secret
      invariant typed == |game.guesses| <= MAX_GUESSES
      invariant Play(secret, inputs, game.guesses) == Play(secret, inputs, [])
      decreases MAX_GUESSES - typed
    {
      var word := inputs(typed);
      typed := typed + 1;
      var _ := game.Guess(word);
      if game.IsSolved() {
        break;
      }
    }
    history := game.guesses;
    PlayStops(secret, inputs, [inputs(0)]);
    PlayFollowsInputs(secret, inputs, []);
    PlayGated(secret, inputs, []);
    GatedOnlyLastWins(secret, history);
  }
}

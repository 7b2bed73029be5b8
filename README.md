# Wordle game state, modelled in Dafny

The model covers the `Wordle` class of `wordle.py` in a terminal Wordle game. A `Wordle` holds a secret word that never changes and a list of guesses that only grows. It offers these observers over that list:

- `is_solved`: the last guess is the secret;
- `can_guess`: fewer than `MAX_GUESSES = 6` guesses so far, and not solved;
- `remaining_guesses`: `MAX_GUESSES` minus the number of guesses;
- `is_over`: meant to report out of attempts, but as written it raises AttributeError (see "## Findings");
- `display`: the secret.

`guess(word)` appends the word and reports whether it is the secret. `main` creates a game with the secret `"SLATE"`. It then prompts for words while `can_guess` holds, and leaves the loop early when a guess solves the game.

Everything is in `wordle.dfy`, in module `WordleGame`:

- Four predicates and functions give the state's meaning as values over `(secret, history)`: `Solved`, `MayGuess`, `Remaining`, `OutOfAttempts`.
- The class `Wordle` has a `const secret` and a `var guesses: seq<string>`. Its read-only members are functions with `reads this`. `Guess` is a method that `modifies this`.
- `Gated` says a history was built only through the `can_guess` gate.
- `Play` is a reference definition of the session loop.
- `RunSession` is `main`'s loop as a method, proved equal to `Play`. The words typed at the prompt become a parameter `inputs: nat -> string`.

The code does less than a full Wordle game, and the model follows the code:

- `guess` records any string. It has no length check, alphabet check or upper-casing. It never refuses a word.
- No per-letter feedback exists.
- `WORD_LENGTH` is declared but never used.
- Nothing caps the history below `MAX_GUESSES` except the caller's gate.

## Model

| member | source | states |
|---|---|---|
| WordleGame.Wordle.constructor | wordle.py:6-8 | stores the secret unchanged and starts with an empty history; a fresh game is not solved, can be guessed, is not over, and has `MAX_GUESSES` attempts left |
| WordleGame.Wordle.IsSolved | wordle.py:10-12 | true exactly when the history is non-empty and its last entry equals the secret |
| WordleGame.Wordle.CanGuess | wordle.py:14-16 | true exactly when attempts remain and the game is not solved |
| WordleGame.Wordle.RemainingGuesses | wordle.py:18-20 | attempts left plus guesses made is always `MAX_GUESSES`; not clamped at zero |
| WordleGame.Wordle.Guess | wordle.py:22-24 | the new history is the old one followed by exactly the given word; returns true iff the word equals the secret; afterwards `IsSolved` equals that result and one attempt fewer remains |
| WordleGame.Wordle.Display | wordle.py:26-27 | returns the secret |
| WordleGame.Wordle.IsOver | wordle.py:29-30 | intended `is_over`: true exactly when no attempt remains, whether or not the game is solved |
| WordleGame.Wordle.IsOverAsWritten | wordle.py:29-30 | `is_over` as written always raises, because `self.max_guesses` is not an attribute |
| WordleGame.IsOverAsWrittenRaisesOnFreshGame | wordle.py:29-30 | on a fresh game `is_over` as written raises AttributeError, although the intended answer is false |
| WordleGame.SolvedAfterGuess | wordle.py:22-24 | right after any word is appended, the game is solved iff that word equals the secret exactly (case-sensitive) |
| WordleGame.RemainingAfterGuess | wordle.py:19-23 | each recorded guess takes exactly one from the remaining attempts |
| WordleGame.RemainingPastGate | wordle.py:16-23 | whatever the secret and the words, a history of `MAX_GUESSES` entries closes the gate, and one more guess past it leaves -1 attempts |
| WordleGame.GateClosedIffFinished | wordle.py:15-16 | the gate is closed exactly when the game is solved or out of attempts |
| WordleGame.OutOfAttemptsIffNoneRemaining | wordle.py:19-30 | out of attempts is the same as no attempts remaining |
| WordleGame.GatedBounded | wordle.py:37-39 | a history built only while `can_guess` held has between 0 and `MAX_GUESSES` entries, so remaining attempts are never negative |
| WordleGame.GatedExtend | wordle.py:37-39 | guessing while the gate is open keeps the history gated, whatever the word |
| WordleGame.GatedOnlyLastWins | wordle.py:37-44 | in a gated history no entry before the last equals the secret |
| WordleGame.PlayStops | wordle.py:37-44 | the session loop only appends, never goes past `MAX_GUESSES` guesses, and stops with the gate closed |
| WordleGame.PlayFollowsInputs | wordle.py:37-39 | the i-th recorded guess is the i-th word typed |
| WordleGame.PlayGated | wordle.py:37-39 | every guess of the session loop is made through the open gate |
| WordleGame.RunSession | wordle.py:33-47 | `main`'s loop ends with the history `Play` defines: 1 to `MAX_GUESSES` guesses, the typed words in order, solved or exactly `MAX_GUESSES` long, and the secret only possibly as the last guess |

## Findings

| source | as written | input that shows it | evidently intended | confidence | as-written member | corrected member |
|---|---|---|---|---|---|---|
| wordle.py:30 | `is_over` reads `self.max_guesses`, which neither the instance nor the class defines (the class constant is `MAX_GUESSES`), so it raises AttributeError | any game, for instance a fresh `Wordle('SLATE')` | `len(self.guesses) >= self.MAX_GUESSES` | high (not executed; attribute names in Python are case-sensitive) | WordleGame.IsOverAsWrittenRaisesOnFreshGame | WordleGame.Wordle.IsOver |

`main` never calls `is_over`, so the defect does not affect the game loop.

## Left out

- `main`'s terminal I/O is left out: the greeting, the prompts and the win and remaining-guess messages. Typed words arrive as the `inputs` parameter of `RunSession`, and the model keeps only the loop and its gate.
- `main` hard-codes the secret `"SLATE"`. `RunSession` takes the secret as a parameter, so the model covers that case and every other.
- `WordleGame.Wordle.IsSolved`: Python returns the empty list itself, a falsy value, when there are no guesses. The model returns `false`.
- `letter_state.py` is left out: it is a record of three fields with string formatting and no behaviour.
- `data/convert_words.py` is left out: it is an offline file filter, pure file I/O.
- Python's list aliasing is not modelled: `guesses` is a public attribute other code could mutate. The model holds it as a value that only `Guess` changes.

# Wordle: a verified model of the guess evaluator and the game board

This project models the core of a console Wordle game written in Python
(`wordle_game.py`). The player has six attempts to find a five-letter secret
word. Each guess is coloured letter by letter:

- green: the letter sits at the same position in the secret;
- yellow: the letter occurs elsewhere in the secret and a copy of it is still
  unclaimed;
- gray: otherwise.

The model has four modules:

- `Words` (`words.dfy`) holds a letter with its colour and a row of letters.
  It covers building a row from a guess (a blank row is five `_`), recolouring
  one letter, and joining the characters back into a string.
- `Evaluation` (`evaluation.dfy`) holds the two-pass colouring as the game
  performs it. A counter of the secret's letters is built first. The first
  loop marks exact matches green and takes each out of the counter. The
  second loop, left to right, marks a non-green position yellow while the
  counter holds a copy of its letter, and gray otherwise.
  - The methods `MarkExactMatches` and `MarkPresent` keep these loops, and
    `EvaluateGuess` runs them in order. Each is proved against an independent
    reference colouring, `Feedback`. `Feedback` colours position `j` from the
    colours of positions before `j` and the number of exact matches.
  - Lemmas then state what the colouring means: green exactly on an exact
    match, per-letter count bounds, and when a letter is yellow or gray.
- `WordSource` (`word_source.dfy`) holds the records of finished games and
  the choice of a new secret, which must not repeat an earlier one. It
  contains the lookup as written (see Findings) and the corrected one.
- `Game` (`game.dfy`) holds the status (ongoing, won, lost), the status
  check, the rule deciding which typed guesses are accepted, and the `Board`
  class.
  - `Board` has the six rows as an array, the attempt counter and the status.
    `GuessWord` writes the coloured guess into row `numAttempts`, increments
    the counter and updates the status. A game that is already over takes no
    further guess.
  - `WinInTwo` and `LoseAfterSix` are two client methods that play whole
    games against the secret "crane".

Where the model differs from the code, or pins down what it does:

- A game is lost once `num_attempts >= max_attempts` (line 156). The
  counter never exceeds six (`Board.Valid`), so this is the same as
  reaching six.
- `guessWord` does not check the guess itself; only the caller
  (`startGame`, line 207) does. A guess whose row is shorter than the
  secret makes line 133 raise `IndexError`. The model's `GuessWord`
  requires `Fits` instead, and `AcceptedGuessFits` shows that every
  accepted guess meets it.
- For the guess "abcde" against "speed" there is no exact match. The 'd'
  and the 'e' both occur elsewhere in "speed" and are coloured yellow, as
  `Evaluation.PresentElsewhere` states.
- As written, no used word is ever excluded (see Findings), so line 109
  never sees an empty list. With the corrected lookup, an exhausted pool
  would make `random.choice` raise `IndexError`. `LoadWord` returns
  `ExhaustedPool` instead.
- The model assumes every word of `wordlist.txt` has exactly five letters,
  so a board's secret has five (`Board.Valid`). `load_word` checks no
  length, and `readline()` (line 93) keeps a trailing newline on the last
  word.

## Model

| member | source | states |
|---|---|---|
| Words.MakeWord | wordle_game.py:36-42 | an empty guess gives five placeholder letters, any other guess one letter per character, every letter gray |
| Words.WordString | wordle_game.py:50-52 | the string has one character per letter, the letter's character at each position |
| Words.SetColor | wordle_game.py:47-48 | only the colour of letter k changes, to col; every character and every other letter stays as it was |
| Words.StringOfGuess | wordle_game.py:50-52 | joining the characters of the row built from a non-empty guess gives the guess back |
| Words.StringOfBlank | wordle_game.py:38-39 | a blank row reads as "_____" and all its letters are gray |
| Evaluation.Tally | wordle_game.py:130 | the counter built from the solution holds, for every character, its number of occurrences in the solution |
| Evaluation.Subtract | wordle_game.py:135 | taking a character out lowers its count by one and leaves every other count unchanged |
| Evaluation.EvaluateGuess | wordle_game.py:120-142 | the row produced by the two loops is the guess coloured by the reference feedback |
| Evaluation.MarkExactMatches | wordle_game.py:130-135 | after the first loop exactly the exact matches are green, and the counter holds the solution's count minus the exact matches for every letter |
| Evaluation.MarkPresent | wordle_game.py:136-142 | the second loop turns the first-pass row into the reference feedback colouring, characters unchanged, and its loop keeps the counter non-negative (`PoolNonNegative`) |
| Evaluation.GreenExactlyOnMatch | wordle_game.py:132-137 | a position ends green if and only if it lies within the solution and holds the solution's letter there, so the second loop never recolours a green; positions beyond the solution stay gray |
| Evaluation.GreenCount | wordle_game.py:132-135 | the green positions holding c are exactly the exact matches on c |
| Evaluation.RemainingNonNegative | wordle_game.py:130-140 | the unclaimed count of every letter never goes below zero while colouring |
| Evaluation.PoolNonNegative | wordle_game.py:136-140 | after any number of positions of the second pass, the counter holds no negative count |
| Evaluation.MarkedAtMostCount | wordle_game.py:130-140 | for every letter c, green plus yellow positions holding c are at most the occurrences of c in the solution |
| Evaluation.PresenceRule | wordle_game.py:132-142 | a non-matching position j within the solution is never green; it is yellow if and only if the greens holding its letter and the yellows before j holding it leave a copy unclaimed, and gray if and only if they claim every copy |
| Evaluation.ColoredKeepsGuess | wordle_game.py:122-142 | the coloured row keeps the guess's characters and carries the feedback colours |
| Evaluation.SolvedIsAllGreen | wordle_game.py:130-142 | a guess equal to the (non-empty) solution is coloured all green |
| Evaluation.DisjointIsAllGray | wordle_game.py:130-142 | a guess with no letter in the solution is coloured all gray |
| Evaluation.OneCopyOneMark | wordle_game.py:130-142 | "lllll" against "apple" is gray, gray, gray, green, gray: the one 'l' goes to the exact match |
| Evaluation.PresentElsewhere | wordle_game.py:130-142 | "abcde" against "speed" is gray, gray, gray, yellow, yellow |
| WordSource.MakeRecord | wordle_game.py:178-184 | the saved record has the five keys, holds the secret under "actual_word" and has no "word_guessed" key |
| WordSource.SecretOfRecord | wordle_game.py:178-179 | the only secret a saved record holds is the secret of its game |
| WordSource.LookedUpAsWritten | wordle_game.py:102-103 | the values looked up under "word_guessed", one per record, None for a record without that key |
| WordSource.PossibleWordsAsWritten | wordle_game.py:99-107 | the candidates minus every string found under "word_guessed"; all candidates when there are no records |
| WordSource.SavedRecordsExcludeNothing | wordle_game.py:99-107 | as written, records without a "word_guessed" key exclude no candidate: every word stays possible |
| WordSource.ReplayedSecret | wordle_game.py:101-109 | as written, after a game with secret "crane" the word "crane" is still possible, while the corrected available set is empty |
| WordSource.UsedSecrets | wordle_game.py:99-103 | corrected lookup: a word is a used secret if and only if some record holds it under "actual_word" |
| WordSource.AvailableWords | wordle_game.py:105-107 | corrected lookup: every available word is a candidate, and no record's secret is available |
| WordSource.AvailableIsDifference | wordle_game.py:99-107 | a word is available if and only if it is a candidate and no record holds it as its secret |
| WordSource.SavingRemovesSecret | wordle_game.py:178-185 | appending a game's record removes exactly its secret from the available words |
| WordSource.LoadWord | wordle_game.py:99-111 | a chosen secret is a candidate and not an earlier secret; the error comes back if and only if no word is available |
| Game.CheckStatus | wordle_game.py:153-158 | a won or lost status stays; an ongoing one becomes lost if and only if the attempts are used up, and never won |
| Game.Status.Value | wordle_game.py:18-21 | each status is saved under its own name: "ongoing", "won" or "lost" |
| Game.StatusAfterGuess | wordle_game.py:148-157 | after a guess the game is won if and only if the guess is the solution, lost if and only if it is not and no attempts remain, ongoing otherwise |
| Game.IsAlpha | wordle_game.py:207 | a string is alphabetic if and only if it is non-empty and each of its characters is a letter |
| Game.Accepts | wordle_game.py:207 | an accepted guess builds a five-letter row that reads back as the guess and holds no placeholder |
| Game.AcceptsExactly | wordle_game.py:207 | a guess is accepted if and only if it has five characters, all letters, and is a candidate word |
| Game.AcceptedGuessFits | wordle_game.py:207 | an accepted guess can be evaluated against any five-letter solution |
| Game.RowsAfterGuess | wordle_game.py:145-146 | writing the coloured guess into the first blank row keeps every row in step with the guesses made |
| Game.StatusAfterGuessFits | wordle_game.py:148-157 | the status after a guess of an ongoing game agrees with the history: won only by the last guess, lost only after six wrong ones |
| Game.Board.constructor | wordle_game.py:60-65 | a new board has six blank rows, no attempts and an ongoing game |
| Game.Board.CheckBoardStatus | wordle_game.py:153-158 | the status becomes CheckStatus of the old one, and the result says whether the game is over; on a valid board the check changes nothing and the board stays valid |
| Game.Board.GuessWord | wordle_game.py:113-151 | a finished game stays unchanged and answers GameOver; otherwise row numAttempts gets the coloured guess, other rows stay, the counter grows by one, and the status is StatusAfterGuess; the board invariant, so numAttempts <= 6, is kept |
| Game.Board.ResultRecord | wordle_game.py:178-184 | the record of a finished game is the five-key record with the secret, the last row read back as a string (the last guess, or "_____" for an empty one), the outcome, the attempts and the date; it has no "word_guessed" key, and its used-secret set is exactly the secret |

## Left out

- Reading `wordlist.txt`, creating `data/`, and loading or writing `attempts.json` are not modelled. The word list and the records are parameters, and `ResultRecord` builds the record that would be appended.
- `random.choice` is not modelled. `LoadWord` picks any available word, without a distribution.
- Game.Board.constructor: takes the secret and the word list as parameters rather than calling `load_word`. `LoadWord` models that choice on its own. It also requires a secret of exactly five letters. The code checks no length, and a last word read with its trailing newline (line 93) would be six characters long; with such a secret no guess could win and the first accepted guess would raise `IndexError` at line 133.
- `displayBoard`, colorama and screen clearing are not modelled: they are terminal output only.
- The messages and the process exit of `endGame` are replaced by the `GameOver` result of `GuessWord`, and saving by `ResultRecord`.
- The input loop of `startGame` and the `lower()` applied to the typed guess (line 206) are not modelled. Only the acceptance rule of line 207 is kept.
- The record's date is a parameter instead of `datetime.today()`.
- `Alphabet`, `ALPHABET_DICT` and `COLOR_PRIORITY` are left out: they are built but never used by the game.
- Game.Accepts: `isalpha` is modelled as ASCII letters only. Python also accepts other Unicode letters.
- Game.IsAlpha: the same restriction to ASCII letters as in `Game.Accepts`.
- Evaluation.EvaluateGuess: requires the row built from the guess to be at least as long as the solution (an empty guess gives a row of five placeholders). In the code a shorter guess raises an `IndexError` at line 133, and the caller only ever passes accepted five-letter guesses.
- A row is modelled as a value. `__setcolor__` mutating a `Letter` in place becomes the construction of a new row, since rows never share letters.

## Findings

| source | as written | input that shows it | evidently intended | confidence | as-written member | corrected member |
|---|---|---|---|---|---|---|
| wordle_game.py:103 | earlier secrets are looked up under the key "word_guessed", which `saveResults` (line 179) never writes, so nothing is excluded | word list ["crane"] and the one record saved after a game whose secret was "crane": "crane" can be chosen again | read the key "actual_word" that the records hold, so that earlier secrets are excluded | not executed | WordSource.PossibleWordsAsWritten, WordSource.ReplayedSecret | WordSource.LoadWord |

/** The game board: six rows of guesses, the attempt counter and the game
    status, and the rule that decides which guesses are accepted. */
module Game {
  import opened Words
  import opened Evaluation
  import opened WordSource

  /** Number of rows on the board, hence of guesses a game allows. */
  const MaxAttempts: nat := 6

  datatype Status = Ongoing | Won | Lost {
    predicate IsTerminal() { this != Ongoing }

    /** The name under which the status is saved in a result record; each
        status has its own. */
    function Value(): (r: string)
      ensures r == "ongoing" <==> this == Ongoing
      ensures r == "won" <==> this == Won
      ensures r == "lost" <==> this == Lost
    {
      match this
      case Ongoing => "ongoing"
      case Won => "won"
      case Lost => "lost"
    }
  }

  /** Status check: an ongoing game whose attempts are used up is lost; a won
      or lost game stays as it is. */
  function CheckStatus(status: Status, attempts: nat, maxAttempts: nat): (r: Status)
    ensures status.IsTerminal() ==> r == status
    ensures status == Ongoing ==> (r == Lost <==> attempts >= maxAttempts) && r != Won
  {
    if status == Ongoing && attempts >= maxAttempts then Lost else status
  }

  /** Status after the attempts-th guess of an ongoing game. */
  function StatusAfterGuess(guess: string, solution: string, attempts: nat): (r: Status)
    ensures r == Won <==> guess == solution
    ensures r == Lost <==> guess != solution && attempts >= MaxAttempts
    ensures r == Ongoing <==> guess != solution && attempts < MaxAttempts
  {
    CheckStatus(if guess == solution then Won else Ongoing, attempts, MaxAttempts)
  }

  predicate IsAsciiLetter(c: char)
  {
    'a' <= c <= 'z' || 'A' <= c <= 'Z'
  }

  /** Every character is a letter, and there is at least one. */
  predicate IsAlpha(s: string): (b: bool)
    ensures b <==> s != "" && forall c :: c in s ==> IsAsciiLetter(c)
  {
    |s| > 0 && forall i :: 0 <= i < |s| ==> IsAsciiLetter(s[i])
  }

  /** A guess the game accepts: five letters and one of the candidate words. */
  function Accepts(guess: string, allWords: seq<string>): (ok: bool)
    ensures ok ==> |MakeWord(guess).letters| == WordLength && WordString(MakeWord(guess)) == guess
    ensures ok ==> forall i :: 0 <= i < |guess| ==> guess[i] != Placeholder
  {
    var ok := !(|guess| != WordLength || !IsAlpha(guess) || guess !in allWords);
    if ok then StringOfGuess(guess); ok else ok
  }

  /** A guess is accepted exactly when it has five characters, all letters,
      and is one of the candidate words. */
  lemma AcceptsExactly(guess: string, allWords: seq<string>)
    ensures Accepts(guess, allWords) <==>
      |guess| == 5 && (forall i :: 0 <= i < |guess| ==> IsAsciiLetter(guess[i])) && guess in allWords
  {
  }

  /** An accepted guess can be evaluated against any five-letter solution. */
  lemma AcceptedGuessFits(guess: string, allWords: seq<string>, solution: string)
    requires Accepts(guess, allWords) && |solution| == WordLength
    ensures Fits(guess, solution)
  {
  }

  /** What a guess leads to: the game was already over, or the guess was
      coloured and the status has been updated. */
  datatype GuessResult =
    | GameOver(final: Status)
    | Scored(row: Word, status: Status)

  /** The rows of a board after the guesses gs: row i is guess i coloured,
      the rows without a guess are blank. */
  ghost predicate RowsShow(rs: seq<Word>, gs: seq<string>, solution: string)
  {
    && |rs| == MaxAttempts && |gs| <= MaxAttempts
    && (forall i :: 0 <= i < |gs| ==> Fits(gs[i], solution) && rs[i] == Colored(gs[i], solution))
    && (forall i :: |gs| <= i < MaxAttempts ==> rs[i] == Blank())
  }

  /** The status after the guesses gs: the game goes on while attempts
      remain and the solution was not guessed, it is won by the last guess alone, and
      lost after six wrong ones. */
  ghost predicate StatusFits(status: Status, gs: seq<string>, solution: string)
  {
    && (forall i :: 0 <= i < |gs| - 1 ==> gs[i] != solution)
    && (status == Ongoing ==> |gs| < MaxAttempts && solution !in gs)
    && (status == Won ==> |gs| > 0 && gs[|gs| - 1] == solution)
    && (status == Lost ==> |gs| == MaxAttempts && solution !in gs)
  }

  /** Colouring a guess into the first blank row keeps the rows in step
      with the guesses. */
  lemma RowsAfterGuess(rs: seq<Word>, gs: seq<string>, solution: string, guess: string)
    requires RowsShow(rs, gs, solution) && |gs| < MaxAttempts && Fits(guess, solution)
    ensures RowsShow(rs[|gs| := Colored(guess, solution)], gs + [guess], solution)
  {
    var rs', gs' := rs[|gs| := Colored(guess, solution)], gs + [guess];
    forall i | 0 <= i < |gs'|
      ensures Fits(gs'[i], solution) && rs'[i] == Colored(gs'[i], solution)
    {
      if i < |gs| { assert gs'[i] == gs[i]; }
    }
  }

  /** An ongoing game moves to the status the new guess gives it. */
  lemma StatusAfterGuessFits(gs: seq<string>, solution: string, guess: string)
    requires StatusFits(Ongoing, gs, solution)
    ensures StatusFits(StatusAfterGuess(guess, solution, |gs| + 1), gs + [guess], solution)
  {
    var gs' := gs + [guess];
    assert forall i :: 0 <= i < |gs'| - 1 ==> gs'[i] == gs[i];
    assert guess != solution ==> solution !in gs';
  }

  class Board {
    var allWords: seq<string>
    var numAttempts: nat
    var rows: array<Word>
    var status: Status
    var solution: string
    /** The guesses made so far, in order. */
    ghost var guesses: seq<string>

    ghost predicate Valid()
      reads this, rows
    {
      && |solution| == WordLength
      && numAttempts == |guesses|
      && RowsShow(rows[..], guesses, solution)
      && StatusFits(status, guesses, solution)
    }

    /** A fresh board for the given secret: six blank rows, no attempts, the
        game ongoing. */
    constructor (solution: string, allWords: seq<string>)
      requires |solution| == WordLength
      ensures Valid() && fresh(rows)
      ensures this.solution == solution && this.allWords == allWords
      ensures numAttempts == 0 && status == Ongoing && guesses == []
      ensures forall i :: 0 <= i < rows.Length ==> rows[i] == Blank()
    {
      this.allWords := allWords;
      this.solution := solution;
      numAttempts := 0;
      rows := new Word[MaxAttempts](_ => Blank());
      status := Ongoing;
      guesses := [];
    }

    /** The status check: a game with no attempts left becomes lost; the
        result says whether the game is over. */
    method CheckBoardStatus() returns (ended: bool)
      modifies this`status
      ensures status == CheckStatus(old(status), numAttempts, MaxAttempts)
      ensures ended <==> status.IsTerminal()
      ensures old(Valid()) ==> Valid() && status == old(status)
    {
      if status == Won || status == Lost {
        ended := true;
      } else if status == Ongoing && numAttempts >= MaxAttempts {
        status := Lost;
        ended := true;
      } else {
        ended := false;
      }
    }

    /** Plays one guess. A game that is over takes no further guess and
        nothing changes. Otherwise the coloured guess goes into the row
        numAttempts, the counter goes up by one, and the game is won when the
        guess is the solution and lost when it was the last attempt. */
    method GuessWord(guess: string) returns (r: GuessResult)
      requires Valid()
      requires status == Ongoing ==> Fits(guess, solution)
      modifies this, rows
      ensures Valid()
      ensures rows == old(rows) && solution == old(solution) && allWords == old(allWords)
      ensures old(status).IsTerminal() ==>
        && r == GameOver(old(status))
        && status == old(status) && numAttempts == old(numAttempts)
        && guesses == old(guesses) && rows[..] == old(rows[..])
      ensures old(status) == Ongoing ==>
        && numAttempts == old(numAttempts) + 1
        && guesses == old(guesses) + [guess]
        && rows[..] == old(rows[..])[old(numAttempts) := Colored(guess, solution)]
        && status == StatusAfterGuess(guess, solution, numAttempts)
        && r == Scored(Colored(guess, solution), status)
    {
      var ended := CheckBoardStatus();
      if ended {
        return GameOver(status);
      }
      var displayWord := EvaluateGuess(guess, solution);
      RowsAfterGuess(rows[..], guesses, solution, guess);
      StatusAfterGuessFits(guesses, solution, guess);
      rows[numAttempts] := displayWord;
      numAttempts := numAttempts + 1;
      guesses := guesses + [guess];
      if guess == solution {
        status := Won;
      }
      ended := CheckBoardStatus();
      r := Scored(displayWord, status);
    }

    /** The record saved when the game is over: the secret, the last row
        read back as a string (five placeholders when the last guess was
        empty), the outcome, the number of attempts and the date. */
    method ResultRecord(date: string) returns (rec: Record)
      requires Valid() && status.IsTerminal()
      ensures Lookup(rec, "actual_word") == Some(JString(solution))
      ensures Lookup(rec, "result") == Some(JString(if status == Won then "won" else "lost"))
      ensures Lookup(rec, "num_attempts") == Some(JInt(numAttempts))
      ensures Lookup(rec, "last_word_guessed") == Some(JString(WordString(MakeWord(guesses[|guesses| - 1]))))
      ensures guesses[|guesses| - 1] != "" ==>
        Lookup(rec, "last_word_guessed") == Some(JString(guesses[|guesses| - 1]))
      ensures Lookup(rec, "date") == Some(JString(date))
      ensures rec.Keys == {"actual_word", "last_word_guessed", "result", "num_attempts", "date"}
      ensures Lookup(rec, LookupKey) == None
      ensures rec == MakeRecord(solution, WordString(rows[numAttempts - 1]), status.Value(), numAttempts, date)
      ensures UsedSecrets([rec]) == {solution}
    {
      var last := WordString(rows[numAttempts - 1]);
      ColoredKeepsGuess(guesses[numAttempts - 1], solution);
      if guesses[numAttempts - 1] != "" {
        StringOfGuess(guesses[numAttempts - 1]);
      }
      rec := MakeRecord(solution, last, status.Value(), numAttempts, date);
      SecretOfRecord(solution, last, status.Value(), numAttempts, date);
    }
  }

  /** Two guesses against "crane", the second one right: the game is won
      after two attempts, the winning row is all green, and the saved record
      says so. */
  method WinInTwo()
  {
    var board := new Board("crane", ["arose", "crane"]);
    var r1 := board.GuessWord("arose");
    assert board.status == Ongoing && board.numAttempts == 1;
    var r2 := board.GuessWord("crane");
    assert board.status == Won && board.numAttempts == 2;
    SolvedIsAllGreen("crane", "crane");
    assert r2.Scored? && forall i :: 0 <= i < |r2.row.letters| ==> r2.row.letters[i].color == Green;
    var rec := board.ResultRecord("2024-01-01");
    assert Lookup(rec, "result") == Some(JString("won"));
    assert Lookup(rec, "num_attempts") == Some(JInt(2));
    var r3 := board.GuessWord("crane");
    assert r3 == GameOver(Won);
  }

  /** Six wrong guesses against "crane": the game is lost after the sixth,
      the saved record says so, and no seventh guess is taken. */
  method LoseAfterSix()
  {
    var board := new Board("crane", ["arose", "crane"]);
    var i := 0;
    while i < MaxAttempts
      invariant 0 <= i <= MaxAttempts
      invariant board.Valid() && board.solution == "crane" && fresh(board.rows)
      invariant board.numAttempts == i
      invariant board.status == if i < MaxAttempts then Ongoing else Lost
    {
      var r := board.GuessWord("arose");
      i := i + 1;
    }
    assert board.status == Lost;
    var rec := board.ResultRecord("2024-01-01");
    assert Lookup(rec, "result") == Some(JString("lost"));
    var r := board.GuessWord("crane");
    assert r == GameOver(Lost) && board.numAttempts == MaxAttempts;
  }
}

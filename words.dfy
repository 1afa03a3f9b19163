/** Letters and words of a Wordle board: a guessed character with its feedback
    colour, and a row of such letters. */
module Words {

  /** Number of letters in a word; a blank row has this many placeholders. */
  const WordLength: nat := 5

  /** The placeholder character shown in a row that has not been guessed yet. */
  const Placeholder: char := '_'

  /** Feedback colour of one letter. A letter starts out gray. */
  datatype Color = Gray | Yellow | Green

  datatype Letter = Letter(ch: char, color: Color)

  /** One row of the board: an ordered sequence of letters. */
  datatype Word = Word(letters: seq<Letter>)

  /** The characters of a word joined back into a string. */
  function WordString(w: Word): (r: string)
    ensures |r| == |w.letters|
    ensures forall i :: 0 <= i < |r| ==> r[i] == w.letters[i].ch
  {
    seq(|w.letters|, i requires 0 <= i < |w.letters| => w.letters[i].ch)
  }

  /** The colours of a word, position by position. */
  function Colors(w: Word): seq<Color>
  {
    seq(|w.letters|, i requires 0 <= i < |w.letters| => w.letters[i].color)
  }

  /** Builds a word from a guess: the empty guess gives a blank row of
      placeholders, any other guess one gray letter per character. */
  function MakeWord(guess: string): (w: Word)
    ensures guess == "" ==> |w.letters| == WordLength
    ensures guess != "" ==> |w.letters| == |guess|
    ensures forall i :: 0 <= i < |w.letters| ==> w.letters[i].color == Gray
    ensures forall i :: 0 <= i < |w.letters| ==>
      w.letters[i].ch == if guess == "" then Placeholder else guess[i]
  {
    if guess == "" then
      Word(seq(WordLength, _ => Letter(Placeholder, Gray)))
    else
      Word(seq(|guess|, i requires 0 <= i < |guess| => Letter(guess[i], Gray)))
  }

  /** A row that has not been guessed yet. */
  function Blank(): Word
  {
    MakeWord("")
  }

  /** Recolours the letter at position k and leaves every other letter,
      and every character, as it was. */
  function SetColor(w: Word, k: nat, col: Color): (r: Word)
    requires k < |w.letters|
    ensures |r.letters| == |w.letters|
    ensures WordString(r) == WordString(w)
    ensures r.letters[k].color == col
    ensures Colors(r) == Colors(w)[k := col]
    ensures forall i :: 0 <= i < |w.letters| && i != k ==> r.letters[i] == w.letters[i]
  {
    Word(w.letters[k := Letter(w.letters[k].ch, col)])
  }

  /** Joining the letters of a freshly built word gives the guess back. */
  lemma StringOfGuess(guess: string)
    requires guess != ""
    ensures WordString(MakeWord(guess)) == guess
  {
    var s := WordString(MakeWord(guess));
    assert |s| == |guess|;
    assert forall i :: 0 <= i < |s| ==> s[i] == guess[i];
  }

  /** A blank row reads as five placeholders, and every letter of it is gray. */
  lemma StringOfBlank()
    ensures WordString(Blank()) == "_____"
    ensures forall i :: 0 <= i < |Blank().letters| ==> Blank().letters[i].color == Gray
  {
    var s := WordString(Blank());
    assert |s| == 5;
    assert forall i :: 0 <= i < 5 ==> s[i] == '_';
  }
}

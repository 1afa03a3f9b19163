/** Colouring of one guess against the solution: exact matches are green,
    other letters yellow while unmatched copies of them remain in the
    solution, and gray otherwise. */
module Evaluation {
  import opened Words

  /** Number of occurrences of c in s. */
  function Count(s: seq<char>, c: char): nat
  {
    multiset(s)[c]
  }

  /** A letter counter: a missing key reads as zero and counts may, as far as
      the data structure is concerned, go below zero. */
  type Pool = map<char, int>

  function Get(pool: Pool, c: char): int
  {
    if c in pool then pool[c] else 0
  }

  /** Takes one copy of c out of the counter. */
  function Subtract(pool: Pool, c: char): (r: Pool)
    ensures Get(r, c) == Get(pool, c) - 1
    ensures forall c' :: c' != c ==> Get(r, c') == Get(pool, c')
  {
    pool[c := Get(pool, c) - 1]
  }

  /** The counter of the letters of s. */
  function Tally(s: seq<char>): (pool: Pool)
    ensures forall c :: Get(pool, c) == Count(s, c)
  {
    if s == [] then map[]
    else
      var init, last := s[..|s| - 1], s[|s| - 1];
      assert s == init + [last];
      assert multiset(s) == multiset(init) + multiset{last};
      var prev := Tally(init);
      var r := prev[last := Get(prev, last) + 1];
      assert forall c :: Get(r, c) == Count(s, c) by {
        forall c ensures Get(r, c) == Count(s, c) {
          assert Get(prev, c) == Count(init, c);
        }
      }
      r
  }

  /** Number of positions below k where guess and solution agree on the letter c. */
  function Greens(d: seq<char>, sol: seq<char>, c: char, k: nat): nat
    requires k <= |sol| <= |d|
  {
    if k == 0 then 0
    else Greens(d, sol, c, k - 1) + (if d[k - 1] == sol[k - 1] == c then 1 else 0)
  }

  /** Number of positions of colors holding colour col over the letter c of d. */
  function CountColor(d: seq<char>, colors: seq<Color>, col: Color, c: char): nat
    requires |colors| <= |d|
  {
    if colors == [] then 0
    else
      var k := |colors| - 1;
      CountColor(d, colors[..k], col, c) + (if colors[k] == col && d[k] == c then 1 else 0)
  }

  /** Copies of c in the solution not yet claimed by an exact match or by a
      yellow of the first |prev| positions. */
  function Remaining(d: seq<char>, sol: seq<char>, prev: seq<Color>, c: char): int
    requires |sol| <= |d| && |prev| <= |d|
  {
    Count(sol, c) - Greens(d, sol, c, |sol|) - CountColor(d, prev, Yellow, c)
  }

  /** Colour of position j once positions before j are coloured prev. */
  function ColorAt(d: seq<char>, sol: seq<char>, prev: seq<Color>, j: nat): Color
    requires |sol| <= |d| && j == |prev| < |d|
  {
    if j >= |sol| then Gray
    else if d[j] == sol[j] then Green
    else if Remaining(d, sol, prev, d[j]) > 0 then Yellow
    else Gray
  }

  /** Colours of the first k positions, given left to right. */
  function Pass2(d: seq<char>, sol: seq<char>, k: nat): (r: seq<Color>)
    requires |sol| <= |d| && k <= |d|
    ensures |r| == k
  {
    if k == 0 then []
    else
      var prev := Pass2(d, sol, k - 1);
      prev + [ColorAt(d, sol, prev, k - 1)]
  }

  /** The colour of every position of the guess characters d. */
  function Feedback(d: seq<char>, sol: seq<char>): (r: seq<Color>)
    requires |sol| <= |d|
  {
    Pass2(d, sol, |d|)
  }

  /** The word whose characters are d and whose colours are colors. */
  function Paint(d: seq<char>, colors: seq<Color>): (w: Word)
    requires |colors| == |d|
  {
    Word(seq(|d|, i requires 0 <= i < |d| => Letter(d[i], colors[i])))
  }

  /** Painting keeps the characters and gives exactly the colours asked for. */
  lemma PaintParts(d: seq<char>, colors: seq<Color>)
    requires |colors| == |d|
    ensures |Paint(d, colors).letters| == |d|
    ensures WordString(Paint(d, colors)) == d && Colors(Paint(d, colors)) == colors
  {
  }

  /** Every word is its characters painted with its colours. */
  lemma WordIsPainted(w: Word)
    ensures w == Paint(WordString(w), Colors(w))
  {
    assert w.letters == Paint(WordString(w), Colors(w)).letters;
  }

  /** Recolouring one letter of a painted word paints it with one colour changed. */
  lemma RecolorPainted(d: seq<char>, colors: seq<Color>, k: nat, col: Color)
    requires |colors| == |d| && k < |d|
    ensures SetColor(Paint(d, colors), k, col) == Paint(d, colors[k := col])
  {
    assert SetColor(Paint(d, colors), k, col).letters == Paint(d, colors[k := col]).letters;
  }

  /** The guess is at least as long as the solution, so the evaluation can
      index every position of the solution in it. */
  predicate Fits(guess: string, solution: string)
  {
    |solution| <= |MakeWord(guess).letters|
  }

  /** The coloured row that a guess produces. */
  function Colored(guess: string, solution: string): Word
    requires Fits(guess, solution)
  {
    var d := WordString(MakeWord(guess));
    Paint(d, Feedback(d, solution))
  }

  /** Colours after the first pass has looked at the positions below k:
      green on an exact match there, gray everywhere else. */
  function ExactBelow(d: seq<char>, sol: seq<char>, k: nat): (r: seq<Color>)
    requires k <= |sol| <= |d|
  {
    seq(|d|, i requires 0 <= i < |d| => if i < k && d[i] == sol[i] then Green else Gray)
  }

  /** Colours of every position after the whole first pass. */
  function ExactColors(d: seq<char>, sol: seq<char>): (r: seq<Color>)
    requires |sol| <= |d|
  {
    ExactBelow(d, sol, |sol|)
  }

  /** Two-pass colouring. The first pass marks the exact matches green and
      takes each out of the counter; the second, left to right over the
      remaining positions, marks a letter yellow and takes it out while the
      counter holds a copy of it, and gray otherwise. */
  method EvaluateGuess(guess: string, solution: string) returns (w: Word)
    requires Fits(guess, solution)
    ensures w == Colored(guess, solution)
  {
    var display := MakeWord(guess);
    ghost var d := WordString(display);
    WordIsPainted(display);
    assert Colors(display) == ExactBelow(d, solution, 0);
    var pool;
    display, pool := MarkExactMatches(display, solution);
    PaintParts(d, ExactColors(d, solution));
    w := MarkPresent(display, solution, pool);
  }

  /** First pass: every exact match turns green and gives up its copy in the
      counter of the solution's letters; nothing else changes. */
  method MarkExactMatches(display: Word, solution: string) returns (marked: Word, pool: Pool)
    requires |solution| <= |display.letters|
    requires display == Paint(WordString(display), ExactBelow(WordString(display), solution, 0))
    ensures marked == Paint(WordString(display), ExactColors(WordString(display), solution))
    ensures forall c :: Get(pool, c) == Remaining(WordString(display), solution, [], c)
  {
    ghost var d := WordString(display);
    marked, pool := display, Tally(solution);
    for idx := 0 to |solution|
      invariant marked == Paint(d, ExactBelow(d, solution, idx))
      invariant forall c :: Get(pool, c) == Count(solution, c) - Greens(d, solution, c, idx)
    {
      ghost var before, poolBefore := marked, pool;
      PaintParts(d, ExactBelow(d, solution, idx));
      if marked.letters[idx].ch == solution[idx] {
        marked := SetColor(marked, idx, Green);
        pool := Subtract(pool, marked.letters[idx].ch);
      }
      FirstPassStep(d, solution, idx, before, poolBefore, marked, pool);
    }
  }

  /** One step of the first pass keeps the loop's picture: the exact matches
      below idx + 1 are green and each has taken its copy out of the counter. */
  lemma FirstPassStep(d: seq<char>, sol: seq<char>, idx: nat,
                      before: Word, poolBefore: Pool, after: Word, poolAfter: Pool)
    requires |sol| <= |d| && idx < |sol|
    requires before == Paint(d, ExactBelow(d, sol, idx))
    requires forall c :: Get(poolBefore, c) == Count(sol, c) - Greens(d, sol, c, idx)
    requires before.letters[idx].ch == sol[idx] ==>
      after == SetColor(before, idx, Green) && poolAfter == Subtract(poolBefore, sol[idx])
    requires before.letters[idx].ch != sol[idx] ==> after == before && poolAfter == poolBefore
    ensures after == Paint(d, ExactBelow(d, sol, idx + 1))
    ensures forall c :: Get(poolAfter, c) == Count(sol, c) - Greens(d, sol, c, idx + 1)
  {
    PaintParts(d, ExactBelow(d, sol, idx));
    ExactStep(d, sol, idx);
    if d[idx] == sol[idx] {
      RecolorPainted(d, ExactBelow(d, sol, idx), idx, Green);
    }
  }

  /** The first pass at position idx: an exact match turns green, anything
      else keeps its colour. */
  lemma ExactStep(d: seq<char>, sol: seq<char>, idx: nat)
    requires |sol| <= |d| && idx < |sol|
    ensures ExactBelow(d, sol, idx + 1)
      == if d[idx] == sol[idx] then ExactBelow(d, sol, idx)[idx := Green] else ExactBelow(d, sol, idx)
  {
  }

  /** Second pass, left to right: a position the first pass left gray turns
      yellow, and gives up its copy, while the counter still holds one;
      otherwise it stays gray. The counter never goes below zero on the way,
      and the result is the coloured guess. */
  method MarkPresent(display: Word, solution: string, pool0: Pool) returns (marked: Word)
    requires |solution| <= |display.letters|
    requires display == Paint(WordString(display), ExactColors(WordString(display), solution))
    requires forall c :: Get(pool0, c) == Remaining(WordString(display), solution, [], c)
    ensures marked == Paint(WordString(display), Feedback(WordString(display), solution))
  {
    ghost var d := WordString(display);
    ghost var exact := ExactColors(d, solution);
    var pool := pool0;
    marked := display;
    PoolNonNegative(d, solution, pool0, 0);
    for idx := 0 to |solution|
      invariant marked == Paint(d, Pass2(d, solution, idx) + exact[idx..])
      invariant pool == ClaimYellows(pool0, d, Pass2(d, solution, idx))
      invariant forall c :: Get(pool, c) >= 0
    {
      ghost var before, poolBefore := marked, pool;
      PaintParts(d, Pass2(d, solution, idx) + exact[idx..]);
      var ch := marked.letters[idx].ch;
      if marked.letters[idx].color != Green {
        if Get(pool, ch) > 0 {
          marked := SetColor(marked, idx, Yellow);
          pool := Subtract(pool, ch);
        } else {
          marked := SetColor(marked, idx, Gray);
        }
      }
      SecondPassStep(d, solution, pool0, idx, before, poolBefore, marked, pool);
      PoolNonNegative(d, solution, pool0, idx + 1);
    }
    SecondPassDone(d, solution);
  }

  /** One step of the second pass keeps the loop's picture: the positions
      before idx + 1 carry their final colours, the rest their first-pass
      colours, and the counter has given up one copy per yellow. */
  lemma SecondPassStep(d: seq<char>, sol: seq<char>, pool0: Pool, idx: nat,
                       before: Word, poolBefore: Pool, after: Word, poolAfter: Pool)
    requires |sol| <= |d| && idx < |sol|
    requires forall c :: Get(pool0, c) == Remaining(d, sol, [], c)
    requires before == Paint(d, Pass2(d, sol, idx) + ExactColors(d, sol)[idx..])
    requires poolBefore == ClaimYellows(pool0, d, Pass2(d, sol, idx))
    requires var ch := before.letters[idx].ch;
      && (before.letters[idx].color == Green ==> after == before && poolAfter == poolBefore)
      && (before.letters[idx].color != Green && Get(poolBefore, ch) > 0 ==>
            after == SetColor(before, idx, Yellow) && poolAfter == Subtract(poolBefore, ch))
      && (before.letters[idx].color != Green && Get(poolBefore, ch) <= 0 ==>
            after == SetColor(before, idx, Gray) && poolAfter == poolBefore)
    ensures after == Paint(d, Pass2(d, sol, idx + 1) + ExactColors(d, sol)[idx + 1..])
    ensures poolAfter == ClaimYellows(pool0, d, Pass2(d, sol, idx + 1))
  {
    var exact := ExactColors(d, sol);
    var done := Pass2(d, sol, idx);
    var cs := done + exact[idx..];
    var x := ColorAt(d, sol, done, idx);
    PaintParts(d, cs);
    assert before.letters[idx] == Letter(d[idx], exact[idx]);
    PresentStep(d, sol, done, pool0, exact[idx]);
    StepColors(d, sol, idx);
    StepPool(pool0, d, sol, idx);
    if exact[idx] == Green {
      assert cs[idx := x] == cs;
    } else {
      RecolorPainted(d, cs, idx, x);
    }
  }

  /** Giving position idx its second-pass colour turns the picture after idx
      positions into the picture after idx + 1. */
  lemma StepColors(d: seq<char>, sol: seq<char>, idx: nat)
    requires |sol| <= |d| && idx < |sol|
    ensures var done := Pass2(d, sol, idx);
      var exact := ExactColors(d, sol);
      (done + exact[idx..])[idx := ColorAt(d, sol, done, idx)] == Pass2(d, sol, idx + 1) + exact[idx + 1..]
  {
    var done := Pass2(d, sol, idx);
    var exact := ExactColors(d, sol);
    var x := ColorAt(d, sol, done, idx);
    assert Pass2(d, sol, idx + 1) == done + [x];
    assert (done + exact[idx..])[idx := x] == (done + [x]) + exact[idx + 1..];
  }

  /** The counter after idx + 1 positions: one copy fewer of the letter at
      idx when it turned yellow, the same otherwise. */
  lemma StepPool(pool0: Pool, d: seq<char>, sol: seq<char>, idx: nat)
    requires |sol| <= |d| && idx < |sol|
    ensures var done := Pass2(d, sol, idx);
      var p := ClaimYellows(pool0, d, done);
      ClaimYellows(pool0, d, Pass2(d, sol, idx + 1))
        == if ColorAt(d, sol, done, idx) == Yellow then Subtract(p, d[idx]) else p
  {
    var done := Pass2(d, sol, idx);
    var x := ColorAt(d, sol, done, idx);
    assert Pass2(d, sol, idx + 1) == done + [x];
    assert (done + [x])[..idx] == done;
  }

  /** When the second pass has gone over every position of the solution,
      the word carries the feedback colours. */
  lemma SecondPassDone(d: seq<char>, sol: seq<char>)
    requires |sol| <= |d|
    ensures Pass2(d, sol, |sol|) + ExactColors(d, sol)[|sol|..] == Feedback(d, sol)
  {
    var n := |sol|;
    var cs := Pass2(d, sol, n) + ExactColors(d, sol)[n..];
    forall i | 0 <= i < |d| ensures cs[i] == if i < n then Pass2(d, sol, n)[i] else Gray {
    }
    FeedbackOfFirstPositions(d, sol, cs);
  }

  /** The counter after the positions coloured yellow in colors have each
      taken out their copy. */
  function ClaimYellows(pool: Pool, d: seq<char>, colors: seq<Color>): Pool
    requires |colors| <= |d|
  {
    if colors == [] then pool
    else
      var k := |colors| - 1;
      var p := ClaimYellows(pool, d, colors[..k]);
      if colors[k] == Yellow then Subtract(p, d[k]) else p
  }

  /** The counter of the second pass never holds a negative count: after the
      first k positions it holds the unclaimed copies of every letter. */
  lemma PoolNonNegative(d: seq<char>, sol: seq<char>, pool0: Pool, k: nat)
    requires |sol| <= |d| && k <= |d|
    requires forall c :: Get(pool0, c) == Remaining(d, sol, [], c)
    ensures forall c :: Get(ClaimYellows(pool0, d, Pass2(d, sol, k)), c) >= 0
  {
    forall c ensures Get(ClaimYellows(pool0, d, Pass2(d, sol, k)), c) >= 0 {
      ClaimedCounts(pool0, d, Pass2(d, sol, k), c);
      RemainingNonNegative(d, sol, c, k);
    }
  }

  /** Each yellow takes one copy of its letter out of the counter. */
  lemma {:induction false} ClaimedCounts(pool: Pool, d: seq<char>, colors: seq<Color>, c: char)
    requires |colors| <= |d|
    ensures Get(ClaimYellows(pool, d, colors), c) == Get(pool, c) - CountColor(d, colors, Yellow, c)
  {
    if colors != [] {
      ClaimedCounts(pool, d, colors[..|colors| - 1], c);
    }
  }

  // ----- Properties of the colouring -----

  /** Extending a colouring by one position adds that position alone to its counts. */
  lemma CountColorSnoc(d: seq<char>, prev: seq<Color>, x: Color, col: Color, c: char)
    requires |prev| < |d|
    ensures CountColor(d, prev + [x], col, c)
         == CountColor(d, prev, col, c) + (if x == col && d[|prev|] == c then 1 else 0)
  {
    assert (prev + [x])[..|prev|] == prev;
  }

  /** The colour the second pass gives position |prev|, read off the colour
      the first pass gave it and the counter. */
  lemma PresentStep(d: seq<char>, sol: seq<char>, prev: seq<Color>, pool0: Pool, first: Color)
    requires |sol| <= |d| && |prev| < |sol|
    requires first == ExactColors(d, sol)[|prev|]
    requires forall c :: Get(pool0, c) == Remaining(d, sol, [], c)
    ensures first == Green ==> ColorAt(d, sol, prev, |prev|) == Green
    ensures first != Green ==>
      ColorAt(d, sol, prev, |prev|)
      == if Get(ClaimYellows(pool0, d, prev), d[|prev|]) > 0 then Yellow else Gray
  {
    ClaimedCounts(pool0, d, prev, d[|prev|]);
  }

  /** The colours of the first k positions do not depend on later positions. */
  lemma {:induction false} Pass2Prefix(d: seq<char>, sol: seq<char>, k: nat, m: nat)
    requires |sol| <= |d| && k <= m <= |d|
    ensures Pass2(d, sol, m)[..k] == Pass2(d, sol, k)
    decreases m
  {
    if m > k {
      Pass2Prefix(d, sol, k, m - 1);
      var prev := Pass2(d, sol, m - 1);
      assert Pass2(d, sol, m)[..k] == prev[..k];
    }
  }

  /** Colours that agree with the left-to-right colouring on the positions of
      the solution and are gray beyond them are the feedback. */
  lemma FeedbackOfFirstPositions(d: seq<char>, sol: seq<char>, colors: seq<Color>)
    requires |sol| <= |d| && |colors| == |d|
    requires forall i :: 0 <= i < |d| ==>
      colors[i] == if i < |sol| then Pass2(d, sol, |sol|)[i] else Gray
    ensures colors == Feedback(d, sol)
  {
    var fb := Feedback(d, sol);
    Pass2Prefix(d, sol, |sol|, |d|);
    forall i | 0 <= i < |d| ensures colors[i] == fb[i] {
      if i < |sol| {
        assert fb[..|sol|][i] == fb[i];
      } else {
        FeedbackAt(d, sol, i);
      }
    }
  }

  /** Position j of the feedback is the colour ColorAt gives it after the
      positions before it are coloured. */
  lemma FeedbackAt(d: seq<char>, sol: seq<char>, j: nat)
    requires |sol| <= |d| && j < |d|
    ensures Feedback(d, sol)[..j] == Pass2(d, sol, j)
    ensures Feedback(d, sol)[j] == ColorAt(d, sol, Pass2(d, sol, j), j)
  {
    Pass2Prefix(d, sol, j + 1, |d|);
    Pass2Prefix(d, sol, j, |d|);
    assert Feedback(d, sol)[..j + 1][j] == Feedback(d, sol)[j];
  }

  /** A position is green exactly when guess and solution hold the same
      letter there; positions past the end of the solution stay gray. */
  lemma GreenExactlyOnMatch(d: seq<char>, sol: seq<char>, i: nat)
    requires |sol| <= |d| && i < |d|
    ensures Feedback(d, sol)[i] == Green <==> i < |sol| && d[i] == sol[i]
    ensures i >= |sol| ==> Feedback(d, sol)[i] == Gray
  {
    FeedbackAt(d, sol, i);
  }

  /** Exact matches never claim more copies of c than the solution holds. */
  lemma {:induction false} GreensBound(d: seq<char>, sol: seq<char>, c: char, k: nat)
    requires k <= |sol| <= |d|
    ensures Greens(d, sol, c, k) <= Count(sol[..k], c)
  {
    if k > 0 {
      GreensBound(d, sol, c, k - 1);
      assert sol[..k] == sol[..k - 1] + [sol[k - 1]];
    }
  }

  /** The green positions holding c are the exact matches on c. */
  lemma {:induction false} GreenCount(d: seq<char>, sol: seq<char>, c: char, k: nat)
    requires |sol| <= |d| && k <= |d|
    ensures CountColor(d, Pass2(d, sol, k), Green, c) == Greens(d, sol, c, if k < |sol| then k else |sol|)
  {
    if k > 0 {
      GreenCount(d, sol, c, k - 1);
      var prev := Pass2(d, sol, k - 1);
      CountColorSnoc(d, prev, ColorAt(d, sol, prev, k - 1), Green, c);
    }
  }

  /** The unclaimed count of c never drops below zero while colouring. */
  lemma {:induction false} RemainingNonNegative(d: seq<char>, sol: seq<char>, c: char, k: nat)
    requires |sol| <= |d| && k <= |d|
    ensures Remaining(d, sol, Pass2(d, sol, k), c) >= 0
  {
    if k == 0 {
      GreensBound(d, sol, c, |sol|);
      assert sol[..|sol|] == sol;
    } else {
      RemainingNonNegative(d, sol, c, k - 1);
      var prev := Pass2(d, sol, k - 1);
      CountColorSnoc(d, prev, ColorAt(d, sol, prev, k - 1), Yellow, c);
    }
  }

  /** For every letter c, the positions holding c that end green or yellow
      are no more than the copies of c in the solution. */
  lemma MarkedAtMostCount(d: seq<char>, sol: seq<char>, c: char)
    requires |sol| <= |d|
    ensures CountColor(d, Feedback(d, sol), Green, c) + CountColor(d, Feedback(d, sol), Yellow, c)
         <= Count(sol, c)
  {
    RemainingNonNegative(d, sol, c, |d|);
    GreenCount(d, sol, c, |d|);
  }

  /** A position j of the solution whose letter c is not an exact match is
      yellow exactly when the green positions holding c and the yellow
      positions before j holding c leave a copy of c unclaimed, and gray
      exactly when they use up every copy of c in the solution. */
  lemma PresenceRule(d: seq<char>, sol: seq<char>, j: nat)
    requires |sol| <= |d| && j < |sol| && d[j] != sol[j]
    ensures var fb, c := Feedback(d, sol), d[j];
      var used := CountColor(d, fb, Green, c) + CountColor(d, fb[..j], Yellow, c);
      && fb[j] != Green
      && (fb[j] == Yellow <==> used < Count(sol, c))
      && (fb[j] == Gray <==> used == Count(sol, c))
  {
    var fb, c := Feedback(d, sol), d[j];
    FeedbackAt(d, sol, j);
    GreenCount(d, sol, c, |d|);
    RemainingNonNegative(d, sol, c, j);
  }

  // ----- Properties of a coloured guess -----

  /** The coloured row keeps the characters of the guess. */
  lemma ColoredKeepsGuess(guess: string, solution: string)
    requires Fits(guess, solution)
    ensures WordString(Colored(guess, solution)) == WordString(MakeWord(guess))
    ensures Colors(Colored(guess, solution)) == Feedback(WordString(MakeWord(guess)), solution)
  {
    var w := Colored(guess, solution);
    assert forall i :: 0 <= i < |w.letters| ==> WordString(w)[i] == WordString(MakeWord(guess))[i];
  }

  /** A guess equal to the solution comes back all green. */
  lemma SolvedIsAllGreen(guess: string, solution: string)
    requires guess == solution && solution != ""
    ensures Fits(guess, solution)
    ensures forall i :: 0 <= i < |Colored(guess, solution).letters| ==>
      Colored(guess, solution).letters[i].color == Green
  {
    var d := WordString(MakeWord(guess));
    StringOfGuess(guess);
    forall i | 0 <= i < |d| ensures Feedback(d, solution)[i] == Green {
      GreenExactlyOnMatch(d, solution, i);
    }
  }

  /** A guess with no letter in common with the solution comes back all gray. */
  lemma DisjointIsAllGray(guess: string, solution: string)
    requires Fits(guess, solution)
    requires forall i :: 0 <= i < |WordString(MakeWord(guess))| ==>
      WordString(MakeWord(guess))[i] !in solution
    ensures forall i :: 0 <= i < |Colored(guess, solution).letters| ==>
      Colored(guess, solution).letters[i].color == Gray
  {
    var d := WordString(MakeWord(guess));
    forall i | 0 <= i < |d| ensures Feedback(d, solution)[i] == Gray {
      GreenExactlyOnMatch(d, solution, i);
      if i < |solution| {
        assert d[i] != solution[i];
        assert Count(solution, d[i]) == 0;
        PresenceRule(d, solution, i);
      }
    }
  }

  /** "lllll" against "apple": the one 'l' of the solution is claimed by the
      exact match at position 3, so every other 'l' is gray. */
  lemma OneCopyOneMark()
    ensures Colors(Colored("lllll", "apple")) == [Gray, Gray, Gray, Green, Gray]
  {
    AppleFeedback();
    StringOfGuess("lllll");
    ColoredKeepsGuess("lllll", "apple");
  }

  /** One 'l' in "apple", and it sits at the exact match. */
  lemma AppleCounts()
    ensures Count("apple", 'l') == 1 && Greens("lllll", "apple", 'l', 5) == 1
  {
    assert multiset("apple") == multiset{'a', 'p', 'p', 'l', 'e'};
  }

  lemma AppleFeedback()
    ensures Feedback("lllll", "apple") == [Gray, Gray, Gray, Green, Gray]
  {
    var d, sol := "lllll", "apple";
    AppleCounts();
    ApplePrefix();
    assert Pass2(d, sol, 4) == [Gray, Gray, Gray, Green];
    assert CountColor(d, [Gray, Gray, Gray, Green], Yellow, 'l') == 0;
    assert Remaining(d, sol, [Gray, Gray, Gray, Green], 'l') == 0;
  }

  /** The first three 'l's find the solution's one 'l' already claimed. */
  lemma ApplePrefix()
    ensures Pass2("lllll", "apple", 3) == [Gray, Gray, Gray]
  {
    var d, sol := "lllll", "apple";
    AppleCounts();
    AppleStart();
    assert Remaining(d, sol, [Gray, Gray], 'l') == 0;
  }

  lemma AppleStart()
    ensures Pass2("lllll", "apple", 2) == [Gray, Gray]
  {
    var d, sol := "lllll", "apple";
    AppleCounts();
    assert Pass2(d, sol, 1) == [Gray] by {
      assert Remaining(d, sol, [], 'l') == 0;
    }
    assert Remaining(d, sol, [Gray], 'l') == 0;
  }

  /** "abcde" against "speed": no exact match; 'd' and 'e' occur elsewhere. */
  lemma PresentElsewhere()
    ensures Colors(Colored("abcde", "speed")) == [Gray, Gray, Gray, Yellow, Yellow]
  {
    SpeedFeedback();
    StringOfGuess("abcde");
    ColoredKeepsGuess("abcde", "speed");
  }

  /** The letters of "speed" that "abcde" asks about. */
  lemma SpeedCounts()
    ensures Count("speed", 'a') == 0 && Count("speed", 'b') == 0 && Count("speed", 'c') == 0
    ensures Count("speed", 'd') == 1 && Count("speed", 'e') == 2
  {
    assert multiset("speed") == multiset{'s', 'p', 'e', 'e', 'd'};
  }

  lemma SpeedFeedback()
    ensures Feedback("abcde", "speed") == [Gray, Gray, Gray, Yellow, Yellow]
  {
    var d, sol := "abcde", "speed";
    SpeedCounts();
    SpeedPrefix();
    assert Pass2(d, sol, 4) == [Gray, Gray, Gray, Yellow] by {
      assert Greens(d, sol, 'd', 5) == 0;
      assert Remaining(d, sol, [Gray, Gray, Gray], 'd') == 1;
    }
    assert Greens(d, sol, 'e', 5) == 0;
    assert CountColor(d, [Gray, Gray, Gray, Yellow], Yellow, 'e') == 0;
    assert Remaining(d, sol, [Gray, Gray, Gray, Yellow], 'e') == 2;
  }

  /** 'a', 'b' and 'c' do not occur in "speed". */
  lemma SpeedPrefix()
    ensures Pass2("abcde", "speed", 3) == [Gray, Gray, Gray]
  {
    var d, sol := "abcde", "speed";
    SpeedCounts();
    assert Pass2(d, sol, 1) == [Gray];
    assert Pass2(d, sol, 2) == [Gray, Gray];
  }
}

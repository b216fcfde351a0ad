/**
 * The per-letter feedback `Game.PrintGuessResult` prints: each guessed letter is
 * coloured by comparing it with the secret word at the same position and, failing
 * that, by whether the secret contains it anywhere. There is no accounting for
 * repeated letters.
 */
module Scoring {
  import opened Wrappers
  import opened Text

  /** The colour a guessed letter is printed in: DarkGreen, DarkYellow or DarkGray. */
  datatype Mark = Correct | Present | Absent

  /** What one scored guess shows: the secret itself (cheat guess) or one mark per letter. */
  datatype Feedback = Revealed(word: string) | Marked(marks: seq<Mark>)

  /** The colour switch for the letter `c` guessed at position `i`. */
  function Classify(c: char, word: string, i: nat): (m: Mark)
    requires i < |word|
    ensures m == Correct <==> c == word[i]
    ensures m == Present <==> c != word[i] && c in word
    ensures m == Absent <==> c !in word
  {
    if c == word[i] then Correct
    else if c in word then Present
    else Absent
  }

  /** The marks of a guess that is no longer than the word, built position by position. */
  function Score(guess: string, word: string): (marks: seq<Mark>)
    requires |guess| <= |word|
    ensures |marks| == |guess|
    decreases |guess|
  {
    if guess == [] then []
    else
      var n := |guess| - 1;
      Score(guess[..n], word) + [Classify(guess[n], word, n)]
  }

  /**
   * Scoring gives one mark per letter: Correct exactly where the letter matches the word at
   * that position; otherwise Present exactly when the word contains the letter anywhere,
   * and Absent exactly when it does not.
   */
  lemma {:induction false} ScoreAt(guess: string, word: string, i: nat)
    requires |guess| <= |word| && i < |guess|
    ensures Score(guess, word)[i] == Classify(guess[i], word, i)
    ensures Score(guess, word)[i] == Correct <==> guess[i] == word[i]
    ensures Score(guess, word)[i] == Present <==> guess[i] != word[i] && guess[i] in word
    ensures Score(guess, word)[i] == Absent <==> guess[i] !in word
    decreases |guess|
  {
    var n := |guess| - 1;
    if i < n {
      ScoreAt(guess[..n], word, i);
    }
  }

  /** The same marks, read off position by position instead of built up letter by letter. */
  lemma ScorePointwise(guess: string, word: string)
    requires |guess| <= |word|
    ensures Score(guess, word) == seq(|guess|, i requires 0 <= i < |guess| => Classify(guess[i], word, i))
  {
    forall i | 0 <= i < |guess|
      ensures Score(guess, word)[i] == Classify(guess[i], word, i)
    {
      ScoreAt(guess, word, i);
    }
  }

  /** Scoring reads `word[i]` for each guessed position, which fails past the end of the word. */
  predicate Faults(guess: string, word: string, cheat: string) {
    !EqualsIgnoreCase(guess, cheat) && |guess| > |word|
  }

  /**
   * The feedback for one guess: the cheat guess (compared ignoring case) reveals the word,
   * any other guess is scored; `None` when scoring runs past the end of the word.
   */
  function GuessFeedback(guess: string, word: string, cheat: string): (f: Option<Feedback>)
  {
    if EqualsIgnoreCase(guess, cheat) then Some(Revealed(word))
    else if |guess| > |word| then None
    else Some(Marked(Score(guess, word)))
  }

  /**
   * The cheat guess yields no marks and reveals the word, whatever its length; any other
   * guess gets exactly one mark per letter, unless it is longer than the word.
   */
  lemma GuessFeedbackCases(guess: string, word: string, cheat: string)
    ensures var f := GuessFeedback(guess, word, cheat);
      && (f.None? <==> Faults(guess, word, cheat))
      && (EqualsIgnoreCase(guess, cheat) ==> f == Some(Revealed(word)))
      && (f.Some? && f.value.Marked? ==> !EqualsIgnoreCase(guess, cheat) && |f.value.marks| == |guess|)
      && (!EqualsIgnoreCase(guess, cheat) && |guess| <= |word| ==> f == Some(Marked(Score(guess, word))))
  {
  }

  /** Number of times `c` occurs in `s`. */
  function Occurrences(s: string, c: char): nat
    decreases |s|
  {
    if s == [] then 0
    else Occurrences(s[..|s| - 1], c) + (if s[|s| - 1] == c then 1 else 0)
  }

  /** Number of positions where the guess has `c` and the mark is Correct or Present. */
  function Credited(guess: string, marks: seq<Mark>, c: char): nat
    requires |marks| == |guess|
    decreases |guess|
  {
    if guess == [] then 0
    else
      var n := |guess| - 1;
      Credited(guess[..n], marks[..n], c) + (if guess[n] == c && marks[n] != Absent then 1 else 0)
  }

  /**
   * No duplicate-letter cap: when the word contains `c` at all, every occurrence of `c` in the
   * guess is credited, however few times the word contains it; when it does not, none is.
   */
  lemma {:induction false} CreditIsUncapped(guess: string, word: string, c: char)
    requires |guess| <= |word|
    ensures c in word ==> Credited(guess, Score(guess, word), c) == Occurrences(guess, c)
    ensures c !in word ==> Credited(guess, Score(guess, word), c) == 0
    decreases |guess|
  {
    if guess != [] {
      var n := |guess| - 1;
      CreditIsUncapped(guess[..n], word, c);
      ScoreAt(guess, word, n);
      assert Score(guess, word)[..n] == Score(guess[..n], word);
    }
  }

  /** Two positions holding the same letter, neither in its right place, get the same mark. */
  lemma {:induction false} MarkIgnoresPosition(guess: string, word: string, i: nat, j: nat)
    requires |guess| <= |word|
    requires i < |guess| && j < |guess|
    requires guess[i] == guess[j] && guess[i] != word[i] && guess[j] != word[j]
    ensures Score(guess, word)[i] == Score(guess, word)[j] != Correct
  {
    ScoreAt(guess, word, i);
    ScoreAt(guess, word, j);
  }

  /** A letter the word contains is never marked Absent. */
  lemma {:induction false} ContainedNeverAbsent(guess: string, word: string, i: nat)
    requires |guess| <= |word| && i < |guess|
    requires guess[i] in word
    ensures Score(guess, word)[i] != Absent
  {
    ScoreAt(guess, word, i);
  }

  /** "REACT" against "CRANE": R, E and C are present, A is correct, T is absent. */
  lemma ReactAgainstCrane()
    ensures Score("REACT", "CRANE") == [Present, Present, Correct, Present, Absent]
  {
    ScorePointwise("REACT", "CRANE");
  }

  /**
   * "EERIE" against "CRANE": the word has one E, yet all three E's of the guess are
   * credited.
   */
  lemma RepeatedLettersAllCredited()
    ensures Score("EERIE", "CRANE") == [Present, Present, Present, Absent, Correct]
    ensures Credited("EERIE", Score("EERIE", "CRANE"), 'E') == 3 > Occurrences("CRANE", 'E') == 1
  {
    ScorePointwise("EERIE", "CRANE");
    CreditIsUncapped("EERIE", "CRANE", 'E');
    CountEs();
  }

  lemma CountEs()
    ensures Occurrences("EERIE", 'E') == 3 && Occurrences("CRANE", 'E') == 1
  {
    assert "EERIE"[..4] == "EERI" && "EERI"[..3] == "EER" && "EER"[..2] == "EE" && "EE"[..1] == "E";
    assert "E"[..0] == "";
    assert "CRANE"[..4] == "CRAN" && "CRAN"[..3] == "CRA" && "CRA"[..2] == "CR" && "CR"[..1] == "C";
    assert "C"[..0] == "";
  }

  /** "ERASE" against "SPEED": every letter the word contains is credited, the S included. */
  lemma EraseAgainstSpeed()
    ensures Score("ERASE", "SPEED") == [Present, Absent, Absent, Present, Present]
  {
    ScorePointwise("ERASE", "SPEED");
  }
}

/**
 * The `Game` class: one round's state (secret word, attempt counter, game-over flag) and the
 * turn loop that reads guesses, scores them and checks for a win or a loss. Console output is
 * returned instead of printed; console input is the sequence `inputs`; the word source is
 * given as the secret word, the validity check `isValid` and the cheat guess `cheat`.
 */
module Consordle {
  import opened Wrappers
  import opened Text
  import opened Scoring
  import opened Round

  class Game {
    var word: string
    var isGameOver: bool
    var attempt: int

    /** Every round keeps the attempt counter between 0 and six. */
    ghost predicate Valid()
      reads this
    {
      0 <= attempt <= MaxAttempts
    }

    constructor ()
      ensures word == "" && !isGameOver && attempt == 0 && Valid()
    {
      word := "";
      isGameOver := false;
      attempt := 0;
    }

    function RemainingAttempts(): (r: int)
      reads this
      ensures r + attempt == MaxAttempts
      ensures Valid() ==> 0 <= r <= MaxAttempts
    {
      MaxAttempts - attempt
    }

    /**
     * Reads lines from position `from` until one is valid and not empty, and returns it
     * trimmed and upper-cased with the position after it; `None` when the lines run out.
     * Rejected lines are skipped and nothing of the game changes.
     */
    method GetNextGuess(inputs: seq<string>, from: nat, isValid: string -> bool) returns (guess: Option<string>, next: nat)
      requires from <= |inputs|
      ensures from <= next <= |inputs|
      ensures guess.None? ==> next == |inputs| && Accepted(inputs[from..], isValid) == []
      ensures guess.None? ==> AllRejected(inputs[from..next], isValid)
      ensures guess.Some? ==> from < next && Acceptable(inputs[next - 1], isValid)
                              && guess.value == Normalize(inputs[next - 1])
                              && AllRejected(inputs[from..next - 1], isValid)
                              && Accepted(inputs[from..], isValid) == [guess.value] + Accepted(inputs[next..], isValid)
    {
      var raw := "";
      var i := from;
      while raw == "" && i < |inputs|
        invariant from <= i <= |inputs|
        invariant raw == "" ==> Accepted(inputs[from..], isValid) == Accepted(inputs[i..], isValid)
        invariant raw == "" ==> AllRejected(inputs[from..i], isValid)
        invariant raw != "" ==> from < i && raw == inputs[i - 1] && Acceptable(raw, isValid)
                                && AllRejected(inputs[from..i - 1], isValid)
                                && Accepted(inputs[from..], isValid) == [Normalize(raw)] + Accepted(inputs[i..], isValid)
      {
        var input := inputs[i];
        AcceptedStep(inputs, isValid, i);
        if !Acceptable(input, isValid) {
          AllRejectedExtend(inputs, from, i, isValid);
        }
        i := i + 1;
        if !isValid(input) {
          continue;
        }
        raw := input;
      }
      if raw == "" {
        assert inputs[i..] == [];
        guess, next := None, i;
      } else {
        guess, next := Some(Normalize(raw)), i;
      }
    }

    /**
     * The feedback for one guess against the secret: the cheat guess reveals the word, any
     * other guess gets one mark per letter; `None` where looking up `word[i]` fails.
     */
    method PrintGuessResult(guess: string, cheat: string) returns (f: Option<Feedback>)
      ensures f == GuessFeedback(guess, word, cheat)
    {
      if EqualsIgnoreCase(guess, cheat) {
        return Some(Revealed(word));
      }
      var marks := [];
      var i := 0;
      while i < |guess|
        invariant 0 <= i <= |guess| && i <= |word|
        invariant marks == Score(guess[..i], word)
      {
        if i == |word| {
          return None;
        }
        marks := marks + [Classify(guess[i], word, i)];
        i := i + 1;
        assert guess[..i][..i - 1] == guess[..i - 1];
      }
      assert guess[..i] == guess;
      f := Some(Marked(marks));
    }

    /**
     * Whether the round is over after `guess`, with the message shown: the win check, with
     * its message chosen by the attempts left, comes before the loss check.
     */
    method CheckForWin(guess: string) returns (over: bool, verdict: Outcome)
      ensures verdict == Judge(guess, word, RemainingAttempts())
      ensures over <==> verdict.Won? || verdict.Lost?
    {
      if EqualsIgnoreCase(guess, word) {
        return true, Won(WinMessage(RemainingAttempts()));
      }
      if RemainingAttempts() < 1 {
        return true, Lost(Upper(word));
      }
      return false, Continue;
    }

    /**
     * One pass of the do-while body of `Start`: use an attempt, read a guess, show its feedback
     * and check for a win. `Play` on the guesses still to be read is this turn followed by the
     * rest of the round; `f` is the feedback shown, `None` when there is none.
     */
    method Turn(cheat: string, isValid: string -> bool, inputs: seq<string>, pos: nat, ghost done: seq<Feedback>)
      returns (outcome: Outcome, f: Option<Feedback>, next: nat)
      requires Valid() && attempt < MaxAttempts && pos <= |inputs| && !isGameOver
      modifies this
      ensures Valid()
      ensures word == old(word) && attempt == old(attempt) + 1 && pos <= next <= |inputs|
      ensures outcome.Continue? ==> f.Some? && !isGameOver && attempt < MaxAttempts
      ensures !outcome.Continue? ==> (isGameOver <==> outcome.Won? || outcome.Lost?)
      ensures Resume(done, Play(word, cheat, Accepted(inputs[pos..], isValid), old(attempt)))
           == if outcome.Continue? then Resume(done + [f.value], Play(word, cheat, Accepted(inputs[next..], isValid), attempt))
              else RoundResult(outcome, attempt, if f.Some? then done + [f.value] else done)
    {
      ghost var w, before := word, attempt;
      attempt := attempt + 1;
      var guess;
      guess, next := GetNextGuess(inputs, pos, isValid);
      if guess.None? {
        TurnOutOfInput(w, cheat, inputs, isValid, pos, before, done);
        return OutOfInput, None, next;
      }
      f := PrintGuessResult(guess.value, cheat);
      if f.None? {
        TurnFaulted(w, cheat, inputs, isValid, pos, next, before, done, guess.value);
        return IndexOutOfRange, None, next;
      }
      var over;
      over, outcome := CheckForWin(guess.value);
      TurnScored(w, cheat, inputs, isValid, pos, next, before, done, guess.value, f.value, outcome);
      isGameOver := over;
    }

    /**
     * Plays one round with `secret` as the word. Each turn uses an attempt before its guess
     * is read; the round follows `Play` on the accepted guesses, and `isGameOver` is set
     * exactly when it is won or lost.
     */
    method Start(secret: string, cheat: string, isValid: string -> bool, inputs: seq<string>)
      returns (outcome: Outcome, transcript: seq<Feedback>)
      modifies this
      ensures word == secret && Valid() && attempt >= 1
      ensures Play(secret, cheat, Accepted(inputs, isValid), 0) == RoundResult(outcome, attempt, transcript)
      ensures isGameOver <==> outcome.Won? || outcome.Lost?
    {
      word := secret;
      isGameOver := false;
      attempt := 0;
      ghost var round := Play(secret, cheat, Accepted(inputs, isValid), 0);
      var pos := 0;
      transcript := [];
      outcome := Continue;
      assert [] + round.transcript == round.transcript;
      while outcome.Continue?
        invariant word == secret && Valid() && 0 <= pos <= |inputs|
        invariant outcome.Continue? ==> !isGameOver && attempt < MaxAttempts
        invariant outcome.Continue? ==>
          round == Resume(transcript, Play(secret, cheat, Accepted(inputs[pos..], isValid), attempt))
        invariant !outcome.Continue? ==> 1 <= attempt && round == RoundResult(outcome, attempt, transcript)
        invariant !outcome.Continue? ==> (isGameOver <==> outcome.Won? || outcome.Lost?)
        decreases MaxAttempts - attempt
      {
        var f;
        outcome, f, pos := Turn(cheat, isValid, inputs, pos, transcript);
        if f.Some? {
          transcript := transcript + [f.value];
        }
      }
    }
  }
}

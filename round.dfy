/**
 * A pure description of one round of the game: how a guess is judged, which inputs become
 * guesses, and how a sequence of guesses plays out. `Game.Start` is proved to follow it.
 */
module Round {
  import opened Wrappers
  import opened Text
  import opened Scoring

  const MaxAttempts: nat := 6

  /**
   * How a turn, and so a round, ends. `Continue` means the round goes on. `OutOfInput` and
   * `IndexOutOfRange` stand for a round that never finishes: the console has no more lines,
   * or scoring ran past the end of the secret word.
   */
  datatype Outcome = Won(message: string) | Lost(revealed: string) | Continue | OutOfInput | IndexOutOfRange

  /** The congratulation printed for a win with `remaining` attempts left. */
  function WinMessage(remaining: int): (m: string)
    ensures m == "Genius!" <==> remaining < 0 || remaining > 4
  {
    match remaining
    case 0 => "Phew!"
    case 1 => "Great!"
    case 2 => "Splendid!"
    case 3 => "Impressive!"
    case 4 => "Magnificent!"
    case _ => "Genius!"
  }

  /** Each number of remaining attempts a round can win with has a message of its own. */
  lemma WinMessageDistinct(a: int, b: int)
    requires 0 <= a <= 5 && 0 <= b <= 5 && a != b
    ensures WinMessage(a) != WinMessage(b)
  {
  }

  /** `CheckForWin` on a guess, with `remaining` attempts left. */
  function Judge(guess: string, word: string, remaining: int): (v: Outcome)
    ensures v.Continue? ==> remaining >= 1
  {
    if EqualsIgnoreCase(guess, word) then Won(WinMessage(remaining))
    else if remaining < 1 then Lost(Upper(word))
    else Continue
  }

  /**
   * A guess equal to the word (ignoring case) wins whatever the attempt, with the message
   * for the attempts left; otherwise the round is lost, revealing the word upper-cased, when
   * no attempt remains, and goes on when one does.
   */
  lemma JudgeCases(guess: string, word: string, remaining: int)
    ensures var v := Judge(guess, word, remaining);
      && (v.Won? <==> EqualsIgnoreCase(guess, word))
      && (v.Won? ==> v.message == WinMessage(remaining))
      && (v.Lost? <==> !EqualsIgnoreCase(guess, word) && remaining < 1)
      && (v.Lost? ==> v.revealed == Upper(word))
      && (v.Continue? <==> !EqualsIgnoreCase(guess, word) && remaining >= 1)
  {
  }

  /** The win check comes first: the right word on the last attempt wins with "Phew!". */
  lemma WinOnLastAttempt(guess: string, word: string)
    requires EqualsIgnoreCase(guess, word)
    ensures Judge(guess, word, 0) == Won("Phew!")
  {
  }

  /** `GetNextGuess` keeps reading while its guess is null or empty, and takes only valid input. */
  predicate Acceptable(input: string, isValid: string -> bool) {
    isValid(input) && input != ""
  }

  /** No line of `inputs` is acceptable. */
  ghost predicate AllRejected(inputs: seq<string>, isValid: string -> bool) {
    forall i :: 0 <= i < |inputs| ==> !Acceptable(inputs[i], isValid)
  }

  /** One more rejected line keeps a stretch of input all rejected. */
  lemma AllRejectedExtend(inputs: seq<string>, from: nat, to: nat, isValid: string -> bool)
    requires from <= to < |inputs|
    requires AllRejected(inputs[from..to], isValid) && !Acceptable(inputs[to], isValid)
    ensures AllRejected(inputs[from..to + 1], isValid)
  {
    assert inputs[from..to + 1] == inputs[from..to] + [inputs[to]];
  }

  /** The guesses a sequence of console lines yields, in order, normalised. */
  function Accepted(inputs: seq<string>, isValid: string -> bool): (guesses: seq<string>)
    decreases |inputs|
  {
    if inputs == [] then []
    else
      (if Acceptable(inputs[0], isValid) then [Normalize(inputs[0])] else [])
      + Accepted(inputs[1..], isValid)
  }

  /** Reading one line at position `i`: it adds its guess when acceptable, and nothing otherwise. */
  lemma AcceptedStep(inputs: seq<string>, isValid: string -> bool, i: nat)
    requires i < |inputs|
    ensures Accepted(inputs[i..], isValid)
         == (if Acceptable(inputs[i], isValid) then [Normalize(inputs[i])] else [])
            + Accepted(inputs[i + 1..], isValid)
  {
    assert inputs[i..][1..] == inputs[i + 1..];
  }

  /** The guesses of two stretches of input, one after the other. */
  lemma {:induction false} AcceptedAppend(s: seq<string>, t: seq<string>, isValid: string -> bool)
    ensures Accepted(s + t, isValid) == Accepted(s, isValid) + Accepted(t, isValid)
    decreases |s|
  {
    if s != [] {
      assert (s + t)[1..] == s[1..] + t;
      AcceptedAppend(s[1..], t, isValid);
    } else {
      assert s + t == t;
    }
  }

  /** A rejected input, wherever it comes, yields no guess and so takes no attempt. */
  lemma RejectedInputIgnored(s: seq<string>, x: string, t: seq<string>, isValid: string -> bool)
    requires !Acceptable(x, isValid)
    ensures Accepted(s + [x] + t, isValid) == Accepted(s + t, isValid)
  {
    AcceptedAppend(s + [x], t, isValid);
    AcceptedAppend(s, [x], isValid);
    AcceptedAppend(s, t, isValid);
    assert Accepted([x], isValid) == [] by {
      assert [x][1..] == [];
    }
  }

  /** How a round ended, the attempt counter at the end, and the feedback of every scored guess. */
  datatype RoundResult = RoundResult(outcome: Outcome, attempt: nat, transcript: seq<Feedback>)

  /**
   * The round from the point where `attempt` attempts have been used: the counter goes up,
   * the next guess is scored and judged, and the round goes on only while `Judge` says so.
   */
  function Play(word: string, cheat: string, guesses: seq<string>, attempt: nat): (r: RoundResult)
    requires attempt < MaxAttempts
    decreases |guesses|
  {
    var n := attempt + 1;
    if guesses == [] then RoundResult(OutOfInput, n, [])
    else
      match GuessFeedback(guesses[0], word, cheat)
      case None => RoundResult(IndexOutOfRange, n, [])
      case Some(f) =>
        var v := Judge(guesses[0], word, MaxAttempts - n);
        if v.Continue? then
          var rest := Play(word, cheat, guesses[1..], n);
          RoundResult(rest.outcome, rest.attempt, [f] + rest.transcript)
        else
          RoundResult(v, n, [f])
  }

  /** A round whose first turns produced the feedback `done` and which goes on as `rest`. */
  function Resume(done: seq<Feedback>, rest: RoundResult): RoundResult {
    RoundResult(rest.outcome, rest.attempt, done + rest.transcript)
  }

  /** A round whose lines have run out ends on the next attempt. */
  lemma TurnOutOfInput(word: string, cheat: string, inputs: seq<string>, isValid: string -> bool, pos: nat,
                       attempt: nat, done: seq<Feedback>)
    requires attempt < MaxAttempts && pos <= |inputs|
    requires Accepted(inputs[pos..], isValid) == []
    ensures Resume(done, Play(word, cheat, Accepted(inputs[pos..], isValid), attempt))
         == RoundResult(OutOfInput, attempt + 1, done)
  {
    assert done + [] == done;
  }

  /** A turn whose guess cannot be scored ends the round there. */
  lemma TurnFaulted(word: string, cheat: string, inputs: seq<string>, isValid: string -> bool, pos: nat, next: nat,
                    attempt: nat, done: seq<Feedback>, guess: string)
    requires attempt < MaxAttempts && pos <= next <= |inputs|
    requires Accepted(inputs[pos..], isValid) == [guess] + Accepted(inputs[next..], isValid)
    requires GuessFeedback(guess, word, cheat).None?
    ensures Resume(done, Play(word, cheat, Accepted(inputs[pos..], isValid), attempt))
         == RoundResult(IndexOutOfRange, attempt + 1, done)
  {
    assert Accepted(inputs[pos..], isValid)[0] == guess;
    assert done + [] == done;
  }

  /**
   * A scored turn: a won or lost guess ends the round with its feedback last; any other
   * adds its feedback and hands over to the next turn, on the lines after it.
   */
  lemma TurnScored(word: string, cheat: string, inputs: seq<string>, isValid: string -> bool, pos: nat, next: nat,
                   attempt: nat, done: seq<Feedback>, guess: string, f: Feedback, verdict: Outcome)
    requires attempt < MaxAttempts && pos <= next <= |inputs|
    requires Accepted(inputs[pos..], isValid) == [guess] + Accepted(inputs[next..], isValid)
    requires GuessFeedback(guess, word, cheat) == Some(f)
    requires verdict == Judge(guess, word, MaxAttempts - (attempt + 1))
    ensures verdict.Continue? ==> attempt + 1 < MaxAttempts
    ensures Resume(done, Play(word, cheat, Accepted(inputs[pos..], isValid), attempt))
         == if verdict.Continue? then Resume(done + [f], Play(word, cheat, Accepted(inputs[next..], isValid), attempt + 1))
            else RoundResult(verdict, attempt + 1, done + [f])
  {
    var guesses := Accepted(inputs[pos..], isValid);
    assert guesses[0] == guess && guesses[1..] == Accepted(inputs[next..], isValid);
    if verdict.Continue? {
      var tail := Play(word, cheat, guesses[1..], attempt + 1);
      assert done + ([f] + tail.transcript) == done + [f] + tail.transcript;
    }
  }

  /** Every round ends, never as `Continue`, having used between one and six attempts. */
  lemma {:induction false} PlayEnds(word: string, cheat: string, guesses: seq<string>, attempt: nat)
    requires attempt < MaxAttempts
    ensures attempt < Play(word, cheat, guesses, attempt).attempt <= MaxAttempts
    ensures !Play(word, cheat, guesses, attempt).outcome.Continue?
    decreases |guesses|
  {
    if guesses != [] && GuessFeedback(guesses[0], word, cheat).Some?
       && Judge(guesses[0], word, MaxAttempts - (attempt + 1)).Continue? {
      PlayEnds(word, cheat, guesses[1..], attempt + 1);
    }
  }

  /** A guess that ends the round at once: it wins, or scoring it fails. */
  predicate Decisive(guess: string, word: string, cheat: string) {
    EqualsIgnoreCase(guess, word) || Faults(guess, word, cheat)
  }

  /** None of the first `k` guesses ends the round. */
  ghost predicate Quiet(guesses: seq<string>, word: string, cheat: string, k: nat)
    requires k <= |guesses|
  {
    forall i :: 0 <= i < k ==> !Decisive(guesses[i], word, cheat)
  }

  /**
   * The cheat guess shows the word instead of marks, yet it uses an attempt and is judged like
   * any other guess: the round ends if it wins or no attempt is left, and goes on otherwise.
   */
  lemma CheatGuessJudged(word: string, cheat: string, guesses: seq<string>, attempt: nat)
    requires attempt < MaxAttempts && guesses != [] && EqualsIgnoreCase(guesses[0], cheat)
    ensures var r := Play(word, cheat, guesses, attempt);
      var v := Judge(guesses[0], word, MaxAttempts - (attempt + 1));
      && r.transcript != [] && r.transcript[0] == Revealed(word)
      && (!v.Continue? ==> r.outcome == v && r.attempt == attempt + 1)
      && (v.Continue? ==> r == Resume([Revealed(word)], Play(word, cheat, guesses[1..], attempt + 1)))
  {
    GuessFeedbackCases(guesses[0], word, cheat);
  }

  /** A guess that is not decisive, with an attempt left after it, only adds its feedback. */
  lemma PlayStep(word: string, cheat: string, guesses: seq<string>, attempt: nat)
    requires guesses != [] && !Decisive(guesses[0], word, cheat) && attempt + 1 < MaxAttempts
    ensures GuessFeedback(guesses[0], word, cheat).Some?
    ensures Play(word, cheat, guesses, attempt)
         == Resume([GuessFeedback(guesses[0], word, cheat).value], Play(word, cheat, guesses[1..], attempt + 1))
  {
    GuessFeedbackCases(guesses[0], word, cheat);
    JudgeCases(guesses[0], word, MaxAttempts - (attempt + 1));
  }

  /** A decisive guess, or one on the last attempt, ends the round with its own verdict. */
  lemma PlayLast(word: string, cheat: string, guesses: seq<string>, attempt: nat)
    requires attempt < MaxAttempts && guesses != []
    requires Decisive(guesses[0], word, cheat) || attempt + 1 == MaxAttempts
    ensures var r := Play(word, cheat, guesses, attempt);
      var f := GuessFeedback(guesses[0], word, cheat);
      && r.attempt == attempt + 1
      && r.outcome == (if f.None? then IndexOutOfRange else Judge(guesses[0], word, MaxAttempts - (attempt + 1)))
      && r.transcript == (if f.None? then [] else [f.value])
  {
    GuessFeedbackCases(guesses[0], word, cheat);
    JudgeCases(guesses[0], word, MaxAttempts - (attempt + 1));
  }

  function Min(a: nat, b: nat): nat {
    if a < b then a else b
  }

  /** The guesses in the window of remaining attempts are all quiet, or a first one is decisive. */
  lemma {:induction false} QuietOrFirstDecisive(guesses: seq<string>, word: string, cheat: string, k: nat)
    requires k <= |guesses|
    ensures Quiet(guesses, word, cheat, k)
         || exists j :: 0 <= j < k && Quiet(guesses, word, cheat, j) && Decisive(guesses[j], word, cheat)
  {
    if k > 0 {
      QuietOrFirstDecisive(guesses, word, cheat, k - 1);
    }
  }

  /**
   * The round stops at its first decisive guess inside the window: it wins, with the message
   * for the attempts then left, or fails in scoring.
   */
  lemma {:induction false} PlayStopsAtFirstDecisive(word: string, cheat: string, guesses: seq<string>, attempt: nat, j: nat)
    requires attempt < MaxAttempts
    requires j < |guesses| && attempt + j < MaxAttempts
    requires Quiet(guesses, word, cheat, j) && Decisive(guesses[j], word, cheat)
    ensures Play(word, cheat, guesses, attempt).attempt == attempt + j + 1
    ensures Play(word, cheat, guesses, attempt).outcome
         == if Faults(guesses[j], word, cheat) then IndexOutOfRange
            else Won(WinMessage(MaxAttempts - (attempt + j + 1)))
    decreases j
  {
    if j > 0 {
      assert !Decisive(guesses[0], word, cheat);
      var rest := guesses[1..];
      assert Quiet(rest, word, cheat, j - 1) by {
        forall i | 0 <= i < j - 1
          ensures !Decisive(rest[i], word, cheat)
        {
          assert rest[i] == guesses[i + 1];
        }
      }
      PlayStep(word, cheat, guesses, attempt);
      PlayStopsAtFirstDecisive(word, cheat, rest, attempt + 1, j - 1);
    } else if !Faults(guesses[0], word, cheat) {
      assert EqualsIgnoreCase(guesses[0], word);
      EqualsIgnoreCaseProperties(guesses[0], word, cheat);
    }
  }

  /**
   * When no guess in the window of remaining attempts is decisive, the round is lost on the
   * sixth attempt if there are enough guesses, and runs out of input otherwise.
   */
  lemma {:induction false} PlayQuiet(word: string, cheat: string, guesses: seq<string>, attempt: nat)
    requires attempt < MaxAttempts
    requires Quiet(guesses, word, cheat, Min(|guesses|, MaxAttempts - attempt))
    ensures var r := Play(word, cheat, guesses, attempt);
      if |guesses| >= MaxAttempts - attempt then r.outcome == Lost(Upper(word)) && r.attempt == MaxAttempts
      else r.outcome == OutOfInput && r.attempt == attempt + |guesses| + 1
    decreases |guesses|
  {
    if guesses != [] {
      assert !Decisive(guesses[0], word, cheat);
      if attempt + 1 < MaxAttempts {
        var rest := guesses[1..];
        assert Quiet(rest, word, cheat, Min(|rest|, MaxAttempts - (attempt + 1))) by {
          forall i | 0 <= i < Min(|rest|, MaxAttempts - (attempt + 1))
            ensures !Decisive(rest[i], word, cheat)
          {
            assert rest[i] == guesses[i + 1];
          }
        }
        PlayStep(word, cheat, guesses, attempt);
        PlayQuiet(word, cheat, rest, attempt + 1);
      }
    }
  }

  /** The round is won exactly when a winning guess comes, within six attempts, before any failing one. */
  lemma PlayWonIff(word: string, cheat: string, guesses: seq<string>)
    ensures Play(word, cheat, guesses, 0).outcome.Won?
        <==> exists j :: 0 <= j < |guesses| && j < MaxAttempts && Quiet(guesses, word, cheat, j)
                         && EqualsIgnoreCase(guesses[j], word)
  {
    PlayDecomposition(word, cheat, guesses);
  }

  /** The round is lost exactly when six guesses are accepted and none of them wins (or fails). */
  lemma PlayLostIff(word: string, cheat: string, guesses: seq<string>)
    ensures Play(word, cheat, guesses, 0).outcome.Lost?
        <==> |guesses| >= MaxAttempts && Quiet(guesses, word, cheat, MaxAttempts)
    ensures Play(word, cheat, guesses, 0).outcome.Lost?
        ==> Play(word, cheat, guesses, 0).outcome.revealed == Upper(word)
            && Play(word, cheat, guesses, 0).attempt == MaxAttempts
  {
    PlayDecomposition(word, cheat, guesses);
  }

  /** Every way a round from the start can go, by the first decisive guess in its window. */
  lemma PlayDecomposition(word: string, cheat: string, guesses: seq<string>)
    ensures var r := Play(word, cheat, guesses, 0);
      (r.outcome.Won? <==> exists j :: 0 <= j < |guesses| && j < MaxAttempts && Quiet(guesses, word, cheat, j)
                                       && EqualsIgnoreCase(guesses[j], word))
      && (r.outcome.Lost? <==> |guesses| >= MaxAttempts && Quiet(guesses, word, cheat, MaxAttempts))
      && (r.outcome.Lost? ==> r.outcome.revealed == Upper(word) && r.attempt == MaxAttempts)
  {
    var k := Min(|guesses|, MaxAttempts);
    var r := Play(word, cheat, guesses, 0);
    QuietOrFirstDecisive(guesses, word, cheat, k);
    if Quiet(guesses, word, cheat, k) {
      PlayQuiet(word, cheat, guesses, 0);
      if |guesses| < MaxAttempts {
        assert !r.outcome.Won?;
      }
      forall j | 0 <= j < |guesses| && j < MaxAttempts && Quiet(guesses, word, cheat, j)
        ensures !EqualsIgnoreCase(guesses[j], word)
      {
        assert !Decisive(guesses[j], word, cheat);
      }
    } else {
      var j :| 0 <= j < k && Quiet(guesses, word, cheat, j) && Decisive(guesses[j], word, cheat);
      PlayStopsAtFirstDecisive(word, cheat, guesses, 0, j);
      assert !Quiet(guesses, word, cheat, k);
      if |guesses| >= MaxAttempts {
        assert !Quiet(guesses, word, cheat, MaxAttempts);
      }
      if EqualsIgnoreCase(guesses[j], word) {
        EqualsIgnoreCaseProperties(guesses[j], word, cheat);
      } else {
        forall j' | 0 <= j' < |guesses| && j' < MaxAttempts && Quiet(guesses, word, cheat, j')
          ensures !EqualsIgnoreCase(guesses[j'], word)
        {
          if j' < j {
            assert !Decisive(guesses[j'], word, cheat);
          }
        }
      }
    }
  }

  /** The feedback shown is that of the first accepted guesses, in order. */
  lemma {:induction false} PlayFeedbackInOrder(word: string, cheat: string, guesses: seq<string>, attempt: nat)
    requires attempt < MaxAttempts
    ensures var r := Play(word, cheat, guesses, attempt);
      && |r.transcript| <= |guesses|
      && (forall i :: 0 <= i < |r.transcript| ==> GuessFeedback(guesses[i], word, cheat) == Some(r.transcript[i]))
    decreases |guesses|
  {
    if guesses != [] && !Decisive(guesses[0], word, cheat) && attempt + 1 < MaxAttempts {
      var rest := guesses[1..];
      PlayStep(word, cheat, guesses, attempt);
      PlayFeedbackInOrder(word, cheat, rest, attempt + 1);
      var r := Play(word, cheat, guesses, attempt);
      forall i | 1 <= i < |r.transcript|
        ensures GuessFeedback(guesses[i], word, cheat) == Some(r.transcript[i])
      {
        assert guesses[i] == rest[i - 1];
      }
    } else if guesses != [] {
      PlayLast(word, cheat, guesses, attempt);
    }
  }

  /**
   * One attempt per feedback shown, except for the final attempt of a round that ran out of
   * lines or failed in scoring, which shows none.
   */
  lemma {:induction false} PlayAttemptsCounted(word: string, cheat: string, guesses: seq<string>, attempt: nat)
    requires attempt < MaxAttempts
    ensures var r := Play(word, cheat, guesses, attempt);
      |r.transcript| == (if r.outcome.Won? || r.outcome.Lost? then r.attempt - attempt else r.attempt - attempt - 1)
    decreases |guesses|
  {
    if guesses != [] && !Decisive(guesses[0], word, cheat) && attempt + 1 < MaxAttempts {
      PlayStep(word, cheat, guesses, attempt);
      PlayAttemptsCounted(word, cheat, guesses[1..], attempt + 1);
    } else if guesses != [] {
      PlayLast(word, cheat, guesses, attempt);
    }
  }

  /** A won round ends on a winning guess, with the message for the attempts then left. */
  lemma {:induction false} PlayWinningGuess(word: string, cheat: string, guesses: seq<string>, attempt: nat)
    requires attempt < MaxAttempts
    ensures var r := Play(word, cheat, guesses, attempt);
      r.outcome.Won? ==> attempt < r.attempt && r.attempt - attempt - 1 < |guesses|
                         && EqualsIgnoreCase(guesses[r.attempt - attempt - 1], word)
                         && r.outcome.message == WinMessage(MaxAttempts - r.attempt)
    decreases |guesses|
  {
    if guesses != [] && !Decisive(guesses[0], word, cheat) && attempt + 1 < MaxAttempts {
      var rest := guesses[1..];
      PlayStep(word, cheat, guesses, attempt);
      PlayWinningGuess(word, cheat, rest, attempt + 1);
      PlayEnds(word, cheat, rest, attempt + 1);
      var r := Play(word, cheat, guesses, attempt);
      if r.outcome.Won? {
        assert guesses[r.attempt - attempt - 1] == rest[r.attempt - attempt - 2];
      }
    } else if guesses != [] {
      PlayLast(word, cheat, guesses, attempt);
    }
  }

  /** "Genius!" is earned exactly by winning with the first guess. */
  lemma GeniusIffFirstGuess(word: string, cheat: string, guesses: seq<string>)
    ensures Play(word, cheat, guesses, 0).outcome == Won("Genius!")
        <==> |guesses| > 0 && EqualsIgnoreCase(guesses[0], word)
  {
    var r := Play(word, cheat, guesses, 0);
    PlayWinningGuess(word, cheat, guesses, 0);
    PlayEnds(word, cheat, guesses, 0);
    if |guesses| > 0 && EqualsIgnoreCase(guesses[0], word) {
      EqualsIgnoreCaseProperties(guesses[0], word, cheat);
      PlayStopsAtFirstDecisive(word, cheat, guesses, 0, 0);
    }
  }
}

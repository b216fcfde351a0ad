# Consordle — a Dafny model of the `Game` class

Consordle is a terminal word-guessing game in the style of Wordle. A round picks a secret
word and accepts up to six guesses (`MaxAttempts = 6`). Each guess is read from the console,
checked against the word list, trimmed and upper-cased. It is then shown letter by letter,
each letter in a colour:

- DarkGreen: the letter is in the right place;
- DarkYellow: the word contains the letter somewhere else;
- DarkGray: the word does not contain the letter.

The round ends on a win, with a message that depends on the attempts left, or on a loss after
the sixth attempt, which shows the word upper-cased. A reserved cheat guess shows the secret
word instead of colours.

The model has five modules:

- `Wrappers` (wrappers.dfy): the `Option` type.
- `Text` (text.dfy): ASCII versions of `ToUpperInvariant`, `Trim` and
  `Equals(…, StringComparison.OrdinalIgnoreCase)`.
- `Scoring` (scoring.dfy): the colour rule as marks `Correct`/`Present`/`Absent`. `Score` gives
  the marks of a whole guess. `GuessFeedback` also covers the cheat guess and a guess longer
  than the word.
- `Round` (round.dfy): the win/loss decision (`Judge`) and its message (`WinMessage`). It also
  has `Accepted`, the guesses that input reading accepts, and `Play`, a whole round as a
  function of those guesses, with lemmas about how a round can end.
- `Consordle` (game.dfy): the class `Game` with the fields `word`, `attempt` and `isGameOver`.
  Its methods `Start`, `GetNextGuess`, `PrintGuessResult` and `CheckForWin` follow the source
  loops. `Turn` is one pass of the do-while body of `Start`.

The world outside `Game` is passed in as parameters:

- the word source's random word is `secret`;
- the word-list check is `isValid`;
- the cheat guess is `cheat`;
- the console lines are the sequence `inputs`.

What a round prints is returned instead: the outcome, and one `Feedback` per guess shown.
`Start` is proved against `Play`: its outcome, final attempt count and feedback are exactly
`Play` applied to `Accepted(inputs)`. The lemmas about `Play` then say when a round is won,
lost or cut short.

The scoring follows the code: a letter that is not in its place is Present whenever the word
contains it (`Contains`). Repeated letters get no special treatment, so one occurrence in
the word can make every copy in the guess Present. A description of the game calls instead
for a count-capped rule, where each occurrence in the word credits one guessed letter only.
That description's example with secret "SPEED" and guess "ERASE" marks S Absent, but under
either rule S is Present. The model does what the code does (`CreditIsUncapped`,
`RepeatedLettersAllCredited`, `EraseAgainstSpeed`).

Scoring compares characters exactly, while the win check ignores case. Both are modelled as
written; the secret word is not assumed to be upper-case.

## Model

| member | source | states |
|---|---|---|
| Text.UpperChar | src/Game.cs:54 | upper-casing a character leaves no lower-case letter, shifts a–z by 32 and keeps every other character |
| Text.UpperAt | src/Game.cs:54 | `ToUpperInvariant` keeps the length and upper-cases each character on its own |
| Text.UpperShape | src/Game.cs:54 | `ToUpperInvariant` keeps the length, leaves no lower-case letter and is idempotent |
| Text.TrimStartShape | src/Game.cs:54 | trimming the start keeps a suffix that does not begin with white space and drops only white space |
| Text.TrimEndShape | src/Game.cs:54 | trimming the end keeps a prefix that does not end with white space and drops only white space |
| Text.NormalizeShape | src/Game.cs:54 | a trimmed, upper-cased guess is no longer than its input, has no lower-case letter and no white space at either end |
| Text.EqualsIgnoreCaseProperties | src/Game.cs:88 | case-insensitive equality is reflexive, symmetric and transitive, and only relates strings of equal length |
| Scoring.Classify | src/Game.cs:69-74 | a letter is Correct iff it equals the word's letter at its position, Present iff it does not but the word contains it, Absent iff the word does not contain it |
| Scoring.Score | src/Game.cs:67-77 | a guess no longer than the word gets exactly one mark per letter |
| Scoring.ScoreAt | src/Game.cs:67-74 | the mark at position i is Correct iff guess[i] == word[i], Present iff not and the word contains guess[i], Absent iff the word does not contain it |
| Scoring.ScorePointwise | src/Game.cs:67-74 | the marks built letter by letter equal the colour switch applied at every position independently |
| Scoring.GuessFeedbackCases | src/Game.cs:61-77 | the cheat guess (ignoring case) shows the word whatever its length; any other guess no longer than the word gets exactly its `Score`, one mark per letter; scoring fails exactly when a non-cheat guess is longer than the word |
| Scoring.CreditIsUncapped | src/Game.cs:72 | if the word contains c, every copy of c in the guess is marked Correct or Present, however few times c occurs in the word; otherwise none is |
| Scoring.MarkIgnoresPosition | src/Game.cs:71-73 | two misplaced copies of a letter get the same mark, which is not Correct |
| Scoring.ContainedNeverAbsent | src/Game.cs:72-73 | a letter the word contains is never marked Absent |
| Scoring.ReactAgainstCrane | src/Game.cs:67-74 | "REACT" against "CRANE" scores Present, Present, Correct, Present, Absent |
| Scoring.RepeatedLettersAllCredited | src/Game.cs:72 | "EERIE" against "CRANE": all three E's are credited although "CRANE" has one E |
| Scoring.EraseAgainstSpeed | src/Game.cs:72 | "ERASE" against "SPEED" scores Present, Absent, Absent, Present, Present: the S is Present |
| Round.WinMessage | src/Game.cs:90-98 | the message is "Genius!" exactly when the attempts left are not 0 to 4 |
| Round.WinMessageDistinct | src/Game.cs:90-98 | the six possible counts of attempts left (0 to 5) get six different messages |
| Round.Judge | src/Game.cs:88-113 | the round goes on only when at least one attempt is left |
| Round.JudgeCases | src/Game.cs:88-113 | won iff the guess equals the word ignoring case, with the message for the attempts left; otherwise lost iff no attempt is left, revealing the word upper-cased; otherwise the round goes on |
| Round.WinOnLastAttempt | src/Game.cs:88-102 | the win check comes before the loss check: the right word with no attempt left wins with "Phew!" |
| Round.AcceptedStep | src/Game.cs:40-52 | reading one more line adds its normalised text to the guesses when it is valid and not empty, and adds nothing otherwise |
| Round.AcceptedAppend | src/Game.cs:40-52 | the guesses read from two stretches of input are those of the first followed by those of the second |
| Round.RejectedInputIgnored | src/Game.cs:40-52 | inserting a line that is invalid or empty anywhere in the input changes no guess |
| Round.TurnOutOfInput | src/Game.cs:19-25 | a turn that finds no more accepted input ends the round with that attempt used |
| Round.TurnFaulted | src/Game.cs:19-25 | a turn whose guess is longer than the word (and not the cheat) ends the round with that attempt used and no new feedback |
| Round.TurnScored | src/Game.cs:19-25 | a scored turn adds its feedback; the round goes on from the next input with one more attempt used exactly when the verdict says so, and ends with that verdict otherwise |
| Round.PlayEnds | src/Game.cs:19-25 | every round ends, never as Continue, after at least one more attempt and at most six in all |
| Round.CheatGuessJudged | src/Game.cs:21-24 | the cheat guess shows the word, uses an attempt and is judged like any other guess |
| Round.PlayStep | src/Game.cs:19-25 | a guess that neither wins nor fails, with an attempt left after it, only adds its feedback before the rest of the round |
| Round.PlayLast | src/Game.cs:19-25 | a winning or failing guess, or any guess on the sixth attempt, ends the round on that attempt with its own verdict and feedback |
| Round.PlayStopsAtFirstDecisive | src/Game.cs:19-25 | the round stops at its first winning or failing guess within the remaining attempts, with the attempt count and outcome (win message or scoring failure) that guess gives |
| Round.PlayQuiet | src/Game.cs:19-25 | with no winning or failing guess among the remaining attempts, the round is lost on attempt six, revealing the word upper-cased, or runs out of input |
| Round.PlayWonIff | src/Game.cs:19-25 | a round is won iff, within six guesses, a guess equal to the word ignoring case comes before any guess that wins or fails |
| Round.PlayLostIff | src/Game.cs:105-110 | a round is lost iff six guesses are accepted and none of them wins or fails; it then shows the word upper-cased after six attempts |
| Round.PlayDecomposition | src/Game.cs:19-25 | the won/lost characterisations above, proved together by the first decisive guess |
| Round.PlayFeedbackInOrder | src/Game.cs:19-25 | the feedback shown is that of the accepted guesses in order, one per guess, never more than there are guesses |
| Round.PlayAttemptsCounted | src/Game.cs:19-25 | one attempt per feedback shown, except that an attempt cut short by running out of lines or by a scoring failure shows none |
| Round.PlayWinningGuess | src/Game.cs:88-102 | a won round ends on a guess equal to the word ignoring case, and its message is the one for the attempts left after it |
| Round.GeniusIffFirstGuess | src/Game.cs:90-97 | "Genius!" is shown exactly when the first guess wins |
| Consordle.Game.constructor | src/Game.cs:5-8 | a new game has an empty word, attempt 0 and is not over |
| Consordle.Game.RemainingAttempts | src/Game.cs:32 | attempts left plus attempts used is six, and stays within 0..6 while the attempt count does |
| Consordle.Game.GetNextGuess | src/Game.cs:34-55 | skips every line that is invalid or empty and returns the next one trimmed and upper-cased, with the position after it; the guess is the head of `Accepted` of the remaining input |
| Consordle.Game.PrintGuessResult | src/Game.cs:57-82 | the loop over positions yields exactly `GuessFeedback`: the word for the cheat guess, else one mark per letter, else failure past the end of the word |
| Consordle.Game.CheckForWin | src/Game.cs:84-114 | returns `Judge` for the attempts left, and true exactly when the round is won or lost |
| Consordle.Game.Turn | src/Game.cs:19-25 | uses exactly one attempt before reading a guess, keeps the word, and the round from this point is this turn followed by `Play` on the rest of the input |
| Consordle.Game.Start | src/Game.cs:10-30 | sets the word to the secret; the outcome, final attempt count (1 to 6) and feedback are exactly `Play` on the accepted input; `isGameOver` is set exactly when the round is won or lost |

## Left out

- Console output is left out: prompts, "Not in word list!", the colours and the "Press any key" pause. The printed feedback is returned as `Feedback` values, and the win or loss message as the `Outcome`.
- `Char.ToUpper` when each letter is printed is left out; it affects display only.
- `Words.GetRandom`, `Words.IsValid` and `Words.KonamiCode` are not part of this model. They are the parameters `secret`, `isValid` and `cheat`.
- `Console.ReadLine` is the finite sequence `inputs`. A null line at end of input is not modelled: the source would keep reading, while the model ends the round with `OutOfInput`.
- `ToUpperInvariant`, `Trim` and `OrdinalIgnoreCase` are modelled for ASCII only: letters a–z, and white space as space, tab, LF, VT, FF and CR.
- The `IndexOutOfRangeException` thrown when a guess is longer than the word ends the round as the outcome `IndexOutOfRange`. The letters printed before the exception are not modelled.
- The count-capped scoring rule from the game's description is not modelled, because the code does not implement it.

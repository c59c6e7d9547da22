# Quiz CLI core in Dafny

A model of the logic in `cmds.js`, the command module of a small quiz
game that runs in a terminal or over a socket. Three parts are modelled.

- **`validateId`** is the check every per-id command (`show`, `edit`,
  `test`, `delete`) makes first. An absent argument is rejected as
  missing. An argument that `parseInt` reads as NaN is rejected as not a
  number. Anything else resolves to the parsed integer. `Ids` models this,
  together with the JavaScript `parseInt` it relies on. That model follows
  ECMA-262, section 19.2.5 "parseInt (string, radix)": leading white space
  is skipped, one optional sign is read, a `0x`/`0X` prefix switches to
  radix 16, the longest digit prefix is taken, and no digit at all gives
  NaN.
- **Answer matching** is the same in `testCmd` and in `askQuestion`: both
  the reply and the stored answer are trimmed and lower-cased, then compared
  for equality. `makeQuestion` has already trimmed every reply it reads.
  `Answers` models `trim`, `toLowerCase` and the match, and proves the
  match an equivalence that ignores padding and case.
- **The exam of `playCmd`** works like this:
  - the quizzes are copied into a pool (`toBeResolved`);
  - each round draws one quiz at random, removes it with `splice` and asks it;
  - a correct reply scores a point and starts the next round;
  - the first wrong reply ends the exam, and so does an empty pool.

  The `while` loop over the pool is `Exam.PlayRounds`; `Exam.Play` calls it
  with `askQuestion`'s comparison. The loop is proved equal to the
  function `Exam.Run`, and the exam's properties are lemmas about `Run`.
  The random draws and the typed replies are parameters: one draw in
  [0, 1) per round, and one reply string per prompt.

`Quizzes` adds the other modelled piece: the repository of records as a
`map<int, Quiz>`. It covers the lookups of `show`/`edit`/`test`, which fail
when no record has the id, and the removal done by `delete`.

Files:
- `wrappers.dfy`: `Option` and `Result`.
- `answers.dfy`: the `Answers` module.
- `ids.dfy`: the `Ids` module.
- `quizzes.dfy`: the `Quizzes` module.
- `exam.dfy`: the `Exam` module.

Behaviour of the code worth noting:
- `playOne` has one end for an empty pool (`PoolEmpty`), whether the
  snapshot was empty or the pool ran dry (cmds.js:195-197): it calls
  `endOfExam` the same way in both cases.
- The reply typed at the k-th prompt is judged against the quiz drawn in
  round k. With the quizzes "2+2?"/"4" and "Capital of France?"/"Paris" and
  the replies `["4", "Paris"]`, the exam scores 2 only when the quizzes are
  drawn in stored order (see `Exam.TwoCorrectScenario`). Drawn the other
  way, it ends with 0 points after one question (see
  `Exam.WrongFirstScenario`).
- The not-found message quotes the argument as typed (`id=${id}` refers to
  the command's parameter, not to the parsed number). `"007"` is therefore
  reported as `id=007`.
- `parseInt` accepts a hexadecimal `0x` prefix. `parseInt("0x1A")` is 26
  (see `Ids.ParseIntHexExample`), so `validateId` accepts such an argument.

## Model

| member | source | states |
|---|---|---|
| Ids.ParseInt | cmds.js:37 | `parseInt` gives a number only when, after the leading white space, a digit or a sign comes first; a negative result comes from a `-` |
| Ids.ParseSigned | cmds.js:37 | after the white space: a number only when a digit or a sign comes first; a negative result needs a `-`, and after a `-` the result is never positive |
| Ids.ParseMagnitude | cmds.js:37 | NaN exactly when no digit of the radix follows: a hexadecimal digit after `0x`/`0X`, otherwise a decimal digit |
| Ids.Magnitude | cmds.js:37 | NaN exactly when the text does not start with a digit of the radix |
| Ids.ValidateId | cmds.js:32-45 | missing ⟺ the argument is absent; not a number ⟺ `parseInt` gives NaN; otherwise `Ok` carrying exactly `parseInt(id)` |
| Ids.ParseIntDecimal | cmds.js:37 | white space, a sign and decimal digits followed by a non-digit parse to the signed value of the digits |
| Ids.ParseIntHex | cmds.js:37 | after `0x`/`0X` the hexadecimal digits are read; with none the result is NaN |
| Ids.ParseIntNoDigits | cmds.js:37-39 | no digit after the white space and the sign gives NaN |
| Ids.ParseIntSkipsWhiteSpace | cmds.js:37 | leading white space never changes what `parseInt` reads |
| Ids.ParseSignedOf | cmds.js:37 | a `-` negates the magnitude that follows it, a `+` keeps it |
| Ids.NatToDecimalCorrect | cmds.js:37 | the decimal numeral of `n` is a non-empty digit run with no leading zero that denotes `n` |
| Ids.ParseIntRoundTrip | cmds.js:37 | `parseInt` of the decimal numeral of any integer is that integer |
| Ids.ParseIntNumeral | cmds.js:37 | a sign followed only by decimal digits parses to their signed value |
| Ids.ValidateIdNumeral | cmds.js:37-41 | `validateId` of any integer's numeral resolves to that integer |
| Ids.ValidateIdSevenExample | cmds.js:37-41 | `"7"` resolves to 7 |
| Ids.ValidateIdLettersExample | cmds.js:38-39 | `"abc"` is rejected as not a number |
| Ids.ParseIntTrailingExample | cmds.js:37 | `" -12px"` parses to -12: the white space is skipped and the text after the digits ignored |
| Ids.ParseIntHexExample | cmds.js:37 | `"0x1A"` parses to 26 |
| Ids.ParseIntBarePrefixExample | cmds.js:37 | `"0x"` with no digit after it is NaN |
| Answers.TrimStart | cmds.js:67 | the result is no longer than the input and does not start with white space |
| Answers.TrimEnd | cmds.js:67 | the result is no longer than the input and does not end with white space |
| Answers.Trim | cmds.js:67 | the result is no longer than the input and has no white space at either end |
| Answers.TrimSplit | cmds.js:67 | the input is the result with white space only in front of it and after it |
| Answers.TrimUnique | cmds.js:157 | a string with no white space at either end, padded with white space, trims back to itself |
| Answers.TrimIdempotent | cmds.js:174 | trimming twice is trimming once |
| Answers.TrimPadding | cmds.js:157 | padding a string with white space does not change its trim |
| Answers.TrimToLower | cmds.js:157 | lower-casing commutes with trimming |
| Answers.LowerChar | cmds.js:157 | the result is never an ASCII capital, a lower-case letter is kept, and white space stays white space and nothing else becomes it |
| Answers.ToLower | cmds.js:157 | the length is kept, no ASCII capital is left, and white space is kept in place |
| Answers.Normalize | cmds.js:157 | the compared form is no longer than the input, has no white space at either end and no ASCII capital |
| Answers.Matches | cmds.js:157 | replies equal once trimmed always match; matching replies have trims of the same length |
| Answers.ToLowerIdempotent | cmds.js:157 | lower-casing twice is lower-casing once |
| Answers.NormalizeIdempotent | cmds.js:157 | the trimmed, lower-cased form is a fixpoint of trimming and lower-casing |
| Answers.MatchesEquivalence | cmds.js:157 | matching is reflexive, symmetric and transitive |
| Answers.MatchesIgnoresPadding | cmds.js:174 | white space around the reply or around the stored answer never decides a match |
| Answers.MatchesIgnoresCase | cmds.js:174 | two replies equal once lower-cased match the same answers |
| Answers.MatchesTrimmedReply | cmds.js:66-68 | the trim `makeQuestion` applies to a reply does not change the verdict |
| Answers.MatchesPaddedExample | cmds.js:157 | `" paris "` matches `"Paris"` |
| Answers.MatchesUpperCaseExample | cmds.js:157 | `"PARIS"` matches `"Paris"` |
| Answers.MatchesWrongExample | cmds.js:157 | `"Lyon"` does not match `"Paris"` |
| Quizzes.Message | cmds.js:35-52 | the not-found message quotes the argument between `id=` and the final `.`; only the not-found message starts with `N` |
| Quizzes.FindQuiz | cmds.js:47-53 | found ⟺ the id is valid and has a record, and the record is the one under the parsed id; missing ⟺ no argument; not a number ⟺ NaN; not found carries the typed argument, which parses to an id without a record |
| Quizzes.TestQuiz | cmds.js:145-161 | succeeds exactly when the lookup does, fails with the lookup's error, and on success reports whether the reply matches the stored answer |
| Quizzes.DeleteQuiz | cmds.js:97-99 | succeeds exactly when `validateId` resolves; missing ⟺ no argument; not a number ⟺ NaN; never fails as not found; removes that id and nothing else |
| Quizzes.MessageInjective | cmds.js:35-52 | the three error messages differ, and a not-found message determines the argument it quotes |
| Quizzes.FindQuizByNumeral | cmds.js:107-113 | a stored quiz is found by its decimal id |
| Quizzes.FindQuizMissingRecord | cmds.js:149-151 | an id with no record is reported as not found, quoting the argument |
| Quizzes.DeleteThenFind | cmds.js:97-113 | after `delete` the repository is still well formed and the deleted id is not found |
| Quizzes.DeleteAbsentIsSilent | cmds.js:97-99 | deleting an id with no record changes nothing and is not an error |
| Quizzes.TestQuizPaddedExample | cmds.js:145-157 | `test 2` with reply `" paris "` against the answer `"Paris"` is correct |
| Exam.Pick | cmds.js:199 | `Math.floor(r * n)` for a draw `r` in [0, 1) is a position of the pool |
| Exam.Picks | cmds.js:199 | the position drawn in each round lies in the pool left at that round |
| Exam.PickReaches | cmds.js:199 | every position of a pool is drawn by some draw |
| Exam.IndexOf | cmds.js:200 | `indexOf` gives a position holding the quiz, with no equal quiz before it |
| Exam.Splice | cmds.js:200 | `splice(k, 1)` leaves one element fewer |
| Exam.SpliceSlices | cmds.js:200 | `splice(k, 1)` keeps the slice before `k` and the slice after it |
| Exam.SpliceKeepsOrder | cmds.js:200 | elements before `k` stay in place, those after move down by one |
| Exam.SplicePermutes | cmds.js:200 | `splice` removes exactly one occurrence of the element at `k` |
| Exam.RoundRemovesDrawn | cmds.js:199-200 | a round removes one copy of the drawn quiz and nothing else; with distinct ids, exactly the drawn position, and the rest keep their order |
| Exam.IndexOfDrawn | cmds.js:199-200 | with distinct ids, `indexOf` of the drawn quiz is the position it was drawn from |
| Exam.Correct | cmds.js:172-174 | `askQuestion`'s verdict on a reply is the match of that reply with the answer, whatever the prompt's trim did |
| Exam.Run | cmds.js:194-202 | the reference definition of the exam; it has no contract of its own, and its properties are the lemmas about it in this table |
| Exam.RoundPasses | cmds.js:174-177 | a reply that passes adds one point and one asked quiz, and the exam goes on from the next round with the drawn quiz removed |
| Exam.RoundEnds | cmds.js:178-180 | a failing reply ends the exam with the score unchanged and the drawn quiz as the last one asked |
| Exam.PlayRounds | cmds.js:191-207 | the loop computes exactly `Run` on the snapshot, the draws and the replies |
| Exam.Play | cmds.js:191-209 | `playCmd`'s exam is `Run` with `askQuestion`'s verdict; an empty snapshot gives score 0 and asks nothing |
| Exam.EmptySnapshot | cmds.js:195-197 | an empty snapshot ends the exam at once with score 0 and nothing asked |
| Exam.DrawOrderPermutes | cmds.js:199-201 | the draw order is a permutation of the pool |
| Exam.RunFollowsDrawOrder | cmds.js:194-202 | the quizzes asked are the first ones of the draw order, and never more than the pool |
| Exam.RunAsksFromPool | cmds.js:194-206 | one more quiz is asked than scored unless the pool ran dry; the asked quizzes come from the pool, and all of it when it ran dry |
| Exam.RunReplies | cmds.js:172-177 | every point used one reply; the exam waits only once the replies are used up |
| Exam.RunScores | cmds.js:174-177 | each of the first `score` replies passes against the quiz asked in its round |
| Exam.RunPoint | cmds.js:174-177 | the reply of a scoring round passes against the quiz asked in it |
| Exam.RunStopsOnMiss | cmds.js:178-180 | an exam ended by a wrong reply asked one quiz more than it scored, and that round's reply fails |
| Exam.ExhaustedIffFullScore | cmds.js:195-197 | the exam ends on an empty pool exactly when it scored a point for every quiz |
| Exam.AllCorrect | cmds.js:176-177 | when every reply passes, the exam asks the whole pool in draw order and scores its size |
| Exam.PassesShift | cmds.js:176-177 | replies passing from round `n` pass the first round and all rounds from `n + 1` |
| Exam.SpliceKeepsDistinctIds | cmds.js:200 | `splice` keeps ids distinct |
| Exam.SpliceDropsId | cmds.js:200 | with distinct ids, no quiz left after the splice has the removed quiz's id |
| Exam.RunAsksMembers | cmds.js:194-202 | every quiz asked is one of the pool |
| Exam.NoQuizAskedTwice | cmds.js:194-202 | with distinct ids in the snapshot, the quizzes asked have distinct ids, so none is asked twice |
| Exam.ExamScores | cmds.js:174-177 | in `playCmd`'s exam every point is a reply that matches the answer of the quiz asked in that round |
| Exam.ExamPoint | cmds.js:174-177 | the reply of one scoring round matches the answer of the quiz asked in that round |
| Exam.ExamEndsOnMismatch | cmds.js:178-180 | an exam ended by a wrong reply stopped at the first reply that does not match |
| Exam.ExamMiss | cmds.js:178-180 | for a given outcome of the exam that ended on a wrong reply: one quiz more asked than scored, and that reply does not match |
| Exam.InOrderRounds | cmds.js:194-202 | two quizzes drawn in stored order, both passing, end on an empty pool with two points |
| Exam.TwoCorrectScenario | cmds.js:191-209 | quizzes "2+2?"/"4" and "Capital of France?"/"Paris" drawn in order, replies "4" and "Paris": score 2, pool empty |
| Exam.WrongFirstScenario | cmds.js:191-209 | the same quizzes drawn in reverse order with the same replies: score 0 after one question, the other quiz never asked |

## Left out

- Persistence is not modelled (`findAll`, `findById`, `create`, `destroy`, `save` and Sequelize's `ValidationError`). The database library is not part of this model. The repository is a map, and the exam's snapshot is a sequence.
- `listCmd`, `showCmd`'s output, `addCmd` and `editCmd` are not modelled beyond the shared lookup (`Quizzes.FindQuiz`). `listCmd` and `showCmd`'s output only print; `addCmd` and `editCmd` only prompt, assign the two fields and persist.
- `helpCmd`, `creditsCmd` and `quitCmd` are not modelled: they are static text or I/O.
- I/O is not modelled: readline, the socket, `log`/`errorlog`/`colorize`, the TTY prefill through `setTimeout`, and promise sequencing. The replies are a parameter, and the printed score is the `score` field of the outcome.
- `Math.random` is a parameter: one exact real in [0, 1) per round. Floating-point rounding of `r * n` is not modelled.
- Exam.Play: the replies are a finite sequence. When they run out while a question is waiting, the exam stops with `AwaitingReply`; at that point the source would still be waiting for input.
- Exam.IndexOf: `indexOf` compares records by identity; the model compares their values. The two agree when ids are distinct (`Exam.IndexOfDrawn`), as they are in a snapshot of the table.
- Answers.ToLower: only A–Z and the Latin-1 capitals U+00C0–U+00DE (except U+00D7) are lowered. Other scripts, and mappings that change a string's length, are not modelled, and characters are code points, not UTF-16 units.
- Ids.ParseInt: the result is an unbounded integer. JavaScript's rounding of very long numerals to a double, and `Infinity`, are not modelled, and neither is the negative zero that ECMA-262 gives for `"-0"` (the model gives 0; nothing in `cmds.js` can tell them apart, since the not-found message quotes the argument as typed).

/** The quiz records and the per-id commands of cmds.js that look a quiz up
    (`show`, `edit`, `test`) or remove it (`delete`). The repository is the
    map from id to record that the database would return for `findById`. */
module Quizzes {
  import opened Wrappers
  import opened Answers
  import opened Ids

  /** A persisted question/answer pair. */
  datatype Quiz = Quiz(id: int, question: string, answer: string)

  /** The repository as seen by a lookup: a record for some of the ids. */
  type Repository = map<int, Quiz>

  /** Every record is stored under its own id. */
  predicate WellFormed(repo: Repository) {
    forall k :: k in repo ==> repo[k].id == k
  }

  /** Why a per-id command is rejected before it reaches the record. */
  datatype Failure =
    | MissingId               // `validateId` on an absent argument
    | IdNotANumber            // `validateId` on an argument `parseInt` reads as NaN
    | NoSuchQuiz(arg: string) // the id parses but no record has it; holds the text typed

  /** The message `errorlog` prints for each failure. The not-found message
      quotes the argument as it was typed, because the template refers to the
      command's own parameter and not to the parsed id. */
  function Message(f: Failure): (m: string)
    ensures f.NoSuchQuiz? ==> |m| == 34 + |f.arg| && m[33..|m| - 1] == f.arg && m[|m| - 1] == '.'
    ensures m != [] && (m[0] == 'N' <==> f.NoSuchQuiz?)
  {
    match f
    case MissingId => "Falta el parametro <id>."
    case IdNotANumber => "El valor de parámetro <id> no es un número"
    case NoSuchQuiz(arg) => "No existe un quiz asociado al id=" + arg + "."
  }

  /** The lookup shared by `show`, `edit` and `test`: validate the argument,
      fetch the record by the parsed id, and fail when there is none. */
  function FindQuiz(repo: Repository, arg: Option<string>): (r: Result<Quiz, Failure>)
    ensures r.Success? <==> ValidateId(arg).Ok? && ValidateId(arg).id in repo
    ensures r.Success? ==> r.value == repo[ValidateId(arg).id]
    ensures r == Failure(MissingId) <==> arg == None
    ensures r == Failure(IdNotANumber) <==> arg.Some? && ParseInt(arg.value) == None
    ensures r.Failure? && r.error.NoSuchQuiz? ==>
      arg == Some(r.error.arg) && ParseInt(r.error.arg).Some?
      && ParseInt(r.error.arg).value !in repo
  {
    match ValidateId(arg)
    case MissingArgument => Failure(MissingId)
    case NotANumber => Failure(IdNotANumber)
    case Ok(id) => if id in repo then Success(repo[id]) else Failure(NoSuchQuiz(arg.value))
  }

  /** `test <id>`: look the quiz up, read one reply (trimmed on input) and
      report whether it matches the stored answer. */
  function TestQuiz(repo: Repository, arg: Option<string>, reply: string): (r: Result<bool, Failure>)
    ensures r.Success? <==> FindQuiz(repo, arg).Success?
    ensures r.Failure? ==> r.error == FindQuiz(repo, arg).error
    ensures r.Success? ==> (r.value <==> Matches(reply, FindQuiz(repo, arg).value.answer))
  {
    match FindQuiz(repo, arg)
    case Failure(f) => Failure(f)
    case Success(q) =>
      MatchesTrimmedReply(reply, q.answer);
      Success(Matches(Trim(reply), q.answer))
  }

  /** `delete <id>`: validate the argument and remove the record with that id.
      Removing an id that has no record is not an error. */
  function DeleteQuiz(repo: Repository, arg: Option<string>): (r: Result<Repository, Failure>)
    ensures r.Success? <==> ValidateId(arg).Ok?
    ensures r == Failure(MissingId) <==> arg == None
    ensures r == Failure(IdNotANumber) <==> arg.Some? && ParseInt(arg.value) == None
    ensures r.Failure? ==> !r.error.NoSuchQuiz?
    ensures r.Success? ==> r.value.Keys == repo.Keys - {ValidateId(arg).id}
    ensures r.Success? ==> forall k :: k in r.value ==> r.value[k] == repo[k]
  {
    match ValidateId(arg)
    case MissingArgument => Failure(MissingId)
    case NotANumber => Failure(IdNotANumber)
    case Ok(id) => Success(repo - {id})
  }

  // ---------------------------------------------------------------------------
  // Properties

  /** The three messages never coincide, and a not-found message determines
      the argument it quotes. */
  lemma MessageInjective(f: Failure, g: Failure)
    requires Message(f) == Message(g)
    ensures f == g
  {
    var m, n := Message(f), Message(g);
    assert m[0] == n[0];
    if f.NoSuchQuiz? && g.NoSuchQuiz? {
      var prefix := "No existe un quiz asociado al id=";
      assert m == prefix + f.arg + ".";
      assert n == prefix + g.arg + ".";
      assert |f.arg| == |g.arg|;
      assert f.arg == m[|prefix|..|m| - 1];
      assert g.arg == n[|prefix|..|n| - 1];
    }
  }

  /** A quiz present in a well-formed repository is found by its decimal id. */
  lemma FindQuizByNumeral(repo: Repository, n: int)
    requires WellFormed(repo) && n in repo
    ensures FindQuiz(repo, Some(IntToDecimal(n))) == Success(repo[n])
    ensures FindQuiz(repo, Some(IntToDecimal(n))).value.id == n
  {
    ValidateIdNumeral(n);
  }

  /** An absent id is reported with the argument exactly as typed. */
  lemma FindQuizMissingRecord(repo: Repository, n: int)
    requires n !in repo
    ensures FindQuiz(repo, Some(IntToDecimal(n))) == Failure(NoSuchQuiz(IntToDecimal(n)))
  {
    ValidateIdNumeral(n);
  }

  /** `delete` keeps the repository well formed, and afterwards a lookup of
      the deleted id reports that no quiz has it. */
  lemma DeleteThenFind(repo: Repository, s: string)
    requires WellFormed(repo)
    requires DeleteQuiz(repo, Some(s)).Success?
    ensures WellFormed(DeleteQuiz(repo, Some(s)).value)
    ensures FindQuiz(DeleteQuiz(repo, Some(s)).value, Some(s)) == Failure(NoSuchQuiz(s))
  {
  }

  /** `delete` of an id that has no record leaves the repository as it was. */
  lemma DeleteAbsentIsSilent(repo: Repository, s: string)
    requires ParseInt(s).Some? && ParseInt(s).value !in repo
    ensures DeleteQuiz(repo, Some(s)) == Success(repo)
  {
    assert DeleteQuiz(repo, Some(s)).value == repo;
  }

  /** `test` on a stored answer "Paris" accepts the padded reply " paris ". */
  lemma TestQuizPaddedExample(repo: Repository)
    requires 2 in repo && repo[2].answer == "Paris"
    ensures TestQuiz(repo, Some("2"), " paris ") == Success(true)
  {
    ValidateIdNumeral(2);
    assert IntToDecimal(2) == "2";
    MatchesPaddedExample();
  }
}

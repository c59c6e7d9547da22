/** The exam of `playCmd` (cmds.js): the quizzes are copied into a pool, and
    in each round one of them is drawn at random, removed from the pool and
    asked; a correct reply scores one point and starts the next round, the
    first wrong reply ends the exam, and so does an empty pool.

    `Math.random()` becomes a supplied sequence of draws in [0, 1), one per
    round, and the replies typed at each prompt become a supplied sequence
    of strings. */
module Exam {
  import opened Answers
  import opened Quizzes

  /** How the exam ended. The source has one end for an empty pool, whether
      it was empty from the start or ran dry, and one for a wrong reply.
      `AwaitingReply` marks a run of the model whose replies ran out while a
      question was waiting for one; the source would still be waiting. */
  datatype EndReason = PoolEmpty | WrongAnswer | AwaitingReply

  /** The final score, the reason the exam ended, and the quizzes asked, in order. */
  datatype Outcome = Outcome(score: nat, reason: EndReason, asked: seq<Quiz>)

  // ---------------------------------------------------------------------------
  // Drawing a quiz

  predicate ValidDraws(draws: seq<real>) {
    forall k :: 0 <= k < |draws| ==> 0.0 <= draws[k] < 1.0
  }

  /** `Math.floor(r * n)` for a draw `r` of `Math.random()`. */
  function Pick(r: real, n: nat): (i: nat)
    requires 0.0 <= r < 1.0 && n > 0
    ensures i < n
  {
    assert r * n as real < n as real by {
      assert (1.0 - r) * n as real > 0.0;
    }
    (r * n as real).Floor
  }

  /** The positions drawn, round by round: `picks[k]` is the position taken
      in round `k` and lies in the pool left at that round. With `size`
      quizzes in the pool at round `n`, rounds `n` to `n + size - 1` are covered. */
  predicate Fits(picks: seq<nat>, n: nat, size: nat) {
    n + size <= |picks| && forall k :: n <= k < n + size ==> picks[k] < n + size - k
  }

  /** The positions the draws select in an exam over `m` quizzes, where
      round `k` draws from a pool of `m - k`. */
  function Picks(draws: seq<real>, m: nat): (p: seq<nat>)
    requires ValidDraws(draws) && m <= |draws|
    ensures Fits(p, 0, m)
    ensures forall k :: 0 <= k < m ==> p[k] == Pick(draws[k], m - k)
  {
    seq(m, k requires 0 <= k < m => Pick(draws[k], m - k))
  }

  // ---------------------------------------------------------------------------
  // Removing it from the pool

  /** `indexOf`: the position of the first element equal to `q`. */
  function IndexOf(s: seq<Quiz>, q: Quiz): (i: nat)
    requires q in s
    ensures i < |s| && s[i] == q
    ensures forall j :: 0 <= j < i ==> s[j] != q
  {
    if s[0] == q then 0 else 1 + IndexOf(s[1..], q)
  }

  /** `splice(k, 1)`: the sequence without its element at position `k`,
      built one element at a time so that the solver unfolds it on demand
      (SpliceSlices gives it as two slices). */
  function Splice(s: seq<Quiz>, k: nat): (r: seq<Quiz>)
    requires k < |s|
    ensures |r| == |s| - 1
    decreases k
  {
    if k == 0 then s[1..] else [s[0]] + Splice(s[1..], k - 1)
  }

  /** `splice(k, 1)` keeps the slice before `k` and the slice after it. */
  lemma {:induction false} SpliceSlices(s: seq<Quiz>, k: nat)
    requires k < |s|
    ensures Splice(s, k) == s[..k] + s[k + 1..]
    decreases k
  {
    if k > 0 {
      SpliceSlices(s[1..], k - 1);
      assert s[1..][..k - 1] == s[1..k];
      assert s[1..][k..] == s[k + 1..];
      assert [s[0]] + s[1..k] == s[..k];
    }
  }

  /** `splice` keeps the order of the other elements: those before `k` stay
      where they are, those after move down by one. */
  lemma SpliceKeepsOrder(s: seq<Quiz>, k: nat)
    requires k < |s|
    ensures forall j :: 0 <= j < k ==> Splice(s, k)[j] == s[j]
    ensures forall j :: k <= j < |s| - 1 ==> Splice(s, k)[j] == s[j + 1]
  {
    SpliceSlices(s, k);
  }

  /** `splice` removes exactly one occurrence of the element at `k`. */
  lemma {:induction false} SplicePermutes(s: seq<Quiz>, k: nat)
    requires k < |s|
    ensures multiset(s) == multiset(Splice(s, k)) + multiset{s[k]}
    decreases k
  {
    assert s == [s[0]] + s[1..];
    if k > 0 {
      SplicePermutes(s[1..], k - 1);
      assert s[1..][k - 1] == s[k];
    }
  }

  lemma SpliceSubset(s: seq<Quiz>, k: nat, x: Quiz)
    requires k < |s| && x in Splice(s, k)
    ensures x in s
  {
    SplicePermutes(s, k);
    assert x in multiset(Splice(s, k));
  }

  // ---------------------------------------------------------------------------
  // The exam

  /** `askQuestion`'s test of a reply: the prompt trims what is typed, then
      both sides are trimmed and lower-cased and compared. */
  predicate Correct(reply: string, q: Quiz)
    ensures Correct(reply, q) <==> Matches(reply, q.answer)
  {
    MatchesTrimmedReply(reply, q.answer);
    Matches(Trim(reply), q.answer)
  }

  /** The exam from round `n` on, as a function of the pool left at that
      round, of the positions drawn and of the replies: round `n` takes
      `pool[picks[n]]`, removes it, and judges `replies[n]` with `check`.
      With `check` set to `Correct` this is the specification of `Play`;
      the lemmas below hold for every `check`. */
  function Run(pool: seq<Quiz>, picks: seq<nat>, replies: seq<string>,
               check: (string, Quiz) -> bool, n: nat): (e: Outcome)
    requires Fits(picks, n, |pool|)
    decreases |pool|
  {
    if pool == [] then Outcome(0, PoolEmpty, [])
    else
      var q := pool[picks[n]];
      var rest := Splice(pool, IndexOf(pool, q));
      if n >= |replies| then Outcome(0, AwaitingReply, [q])
      else if !check(replies[n], q) then Outcome(0, WrongAnswer, [q])
      else
        var e := Run(rest, picks, replies, check, n + 1);
        Outcome(e.score + 1, e.reason, [q] + e.asked)
  }

  /** The outcome of an exam that had already scored `score` points asking
      `asked` when the remaining rounds produced `e`. */
  function After(score: nat, asked: seq<Quiz>, e: Outcome): Outcome {
    Outcome(score + e.score, e.reason, asked + e.asked)
  }

  /** A round whose reply passes the check: the rounds so far grow by one
      point and one quiz, and the exam goes on from the next round. */
  lemma RoundPasses(spec: Outcome, score: nat, asked: seq<Quiz>, pool: seq<Quiz>, picks: seq<nat>,
                    replies: seq<string>, check: (string, Quiz) -> bool)
    requires Fits(picks, score, |pool|) && pool != [] && score < |replies|
    requires spec == After(score, asked, Run(pool, picks, replies, check, score))
    requires check(replies[score], pool[picks[score]])
    ensures var q := pool[picks[score]];
      spec == After(score + 1, asked + [q],
                    Run(Splice(pool, IndexOf(pool, q)), picks, replies, check, score + 1))
  {
    var q := pool[picks[score]];
    var e := Run(Splice(pool, IndexOf(pool, q)), picks, replies, check, score + 1);
    assert asked + ([q] + e.asked) == (asked + [q]) + e.asked;
  }

  /** A round that is the last one: it asks the drawn quiz and scores nothing. */
  lemma RoundEnds(spec: Outcome, score: nat, asked: seq<Quiz>, pool: seq<Quiz>, picks: seq<nat>,
                  replies: seq<string>, check: (string, Quiz) -> bool)
    requires Fits(picks, score, |pool|) && pool != []
    requires spec == After(score, asked, Run(pool, picks, replies, check, score))
    requires score >= |replies| || !check(replies[score], pool[picks[score]])
    ensures spec == Outcome(score, if score >= |replies| then AwaitingReply else WrongAnswer,
                            asked + [pool[picks[score]]])
  {
  }

  /** `playCmd`: the exam with the comparison `askQuestion` makes. */
  method Play(quizzes: seq<Quiz>, draws: seq<real>, replies: seq<string>) returns (e: Outcome)
    requires ValidDraws(draws) && |quizzes| <= |draws|
    ensures e == Run(quizzes, Picks(draws, |quizzes|), replies, Correct, 0)
    ensures quizzes == [] ==> e == Outcome(0, PoolEmpty, [])
  {
    e := PlayRounds(quizzes, draws, replies, Correct);
  }

  /** The loop of `playCmd` and `askQuestion`, for a given verdict on each
      reply: copy the snapshot into the pool (`toBeResolved`), then run
      rounds until the pool is empty, a reply is wrong, or no reply is left. */
  method PlayRounds(quizzes: seq<Quiz>, draws: seq<real>, replies: seq<string>,
                    check: (string, Quiz) -> bool) returns (e: Outcome)
    requires ValidDraws(draws) && |quizzes| <= |draws|
    ensures e == Run(quizzes, Picks(draws, |quizzes|), replies, check, 0)
  {
    ghost var picks := Picks(draws, |quizzes|);
    var toBeResolved: seq<Quiz> := [];
    for j := 0 to |quizzes|
      invariant toBeResolved == quizzes[..j]
    {
      toBeResolved := toBeResolved + [quizzes[j]];
    }
    assert toBeResolved == quizzes;

    var score: nat := 0;
    var asked: seq<Quiz> := [];
    var reason := PoolEmpty;
    var done := false;
    ghost var spec := Run(quizzes, picks, replies, check, 0);
    assert spec == After(0, [], spec);
    while !done
      invariant score <= |replies|
      invariant !done ==> |toBeResolved| + score == |quizzes| && |asked| == score
      invariant !done ==> spec == After(score, asked, Run(toBeResolved, picks, replies, check, score))
      invariant done ==> spec == Outcome(score, reason, asked)
      decreases !done, |toBeResolved|
    {
      if |toBeResolved| == 0 {
        reason := PoolEmpty;
        done := true;
      } else {
        ghost var pool, before := toBeResolved, asked;
        var quizToAsk := toBeResolved[Pick(draws[score], |toBeResolved|)];
        assert quizToAsk == pool[picks[score]];
        var k := IndexOf(toBeResolved, quizToAsk);
        toBeResolved := toBeResolved[..k] + toBeResolved[k + 1..];
        SpliceSlices(pool, k);
        asked := asked + [quizToAsk];
        if score == |replies| {
          RoundEnds(spec, score, before, pool, picks, replies, check);
          reason := AwaitingReply;
          done := true;
        } else if check(replies[score], quizToAsk) {
          RoundPasses(spec, score, before, pool, picks, replies, check);
          score := score + 1;
        } else {
          RoundEnds(spec, score, before, pool, picks, replies, check);
          reason := WrongAnswer;
          done := true;
        }
      }
    }
    e := Outcome(score, reason, asked);
  }

  // ---------------------------------------------------------------------------
  // The draw order

  /** The quizzes in the order the draws would ask them if every reply were
      correct: the reference for which quiz each round asks. */
  function DrawOrder(pool: seq<Quiz>, picks: seq<nat>, n: nat): (o: seq<Quiz>)
    requires Fits(picks, n, |pool|)
    ensures |o| == |pool|
    decreases |pool|
  {
    if pool == [] then []
    else
      var q := pool[picks[n]];
      [q] + DrawOrder(Splice(pool, IndexOf(pool, q)), picks, n + 1)
  }

  /** The draw order is a permutation of the pool. */
  lemma {:induction false} DrawOrderPermutes(pool: seq<Quiz>, picks: seq<nat>, n: nat)
    requires Fits(picks, n, |pool|)
    ensures multiset(DrawOrder(pool, picks, n)) == multiset(pool)
    decreases |pool|
  {
    if pool != [] {
      var q := pool[picks[n]];
      var rest := Splice(pool, IndexOf(pool, q));
      DrawOrderPermutes(rest, picks, n + 1);
      SplicePermutes(pool, IndexOf(pool, q));
    }
  }

  /** The quizzes an exam asks are the first ones of the draw order. */
  lemma {:induction false} RunFollowsDrawOrder(pool: seq<Quiz>, picks: seq<nat>, replies: seq<string>,
                                               check: (string, Quiz) -> bool, n: nat)
    requires Fits(picks, n, |pool|)
    ensures var e := Run(pool, picks, replies, check, n);
      |e.asked| <= |pool|
      && forall k :: 0 <= k < |e.asked| ==> e.asked[k] == DrawOrder(pool, picks, n)[k]
    decreases |pool|
  {
    if pool != [] {
      var q := pool[picks[n]];
      var rest := Splice(pool, IndexOf(pool, q));
      var e, o := Run(pool, picks, replies, check, n), DrawOrder(pool, picks, n);
      var o' := DrawOrder(rest, picks, n + 1);
      assert o == [q] + o';
      if n < |replies| && check(replies[n], q) {
        var e' := Run(rest, picks, replies, check, n + 1);
        RunFollowsDrawOrder(rest, picks, replies, check, n + 1);
        assert e.asked == [q] + e'.asked;
        forall k | 0 <= k < |e.asked| ensures e.asked[k] == o[k] {
          if k > 0 {
            assert e.asked[k] == e'.asked[k - 1] && o[k] == o'[k - 1];
          }
        }
      } else {
        assert e.asked == [q];
      }
    }
  }

  // ---------------------------------------------------------------------------
  // Properties of the exam

  /** The snapshot with no quizzes ends the exam at once: no question, no point. */
  lemma EmptySnapshot(picks: seq<nat>, replies: seq<string>, check: (string, Quiz) -> bool)
    ensures Run([], picks, replies, check, 0) == Outcome(0, PoolEmpty, [])
  {
  }

  /** Every quiz asked comes out of the pool, and an exam that ends on an
      empty pool has asked all of it. Every round but the last one of an exam
      that ends on a reply scores a point. */
  lemma {:induction false} RunAsksFromPool(pool: seq<Quiz>, picks: seq<nat>, replies: seq<string>,
                                           check: (string, Quiz) -> bool, n: nat)
    requires Fits(picks, n, |pool|)
    ensures var e := Run(pool, picks, replies, check, n);
      |e.asked| == e.score + (if e.reason == PoolEmpty then 0 else 1)
      && multiset(e.asked) <= multiset(pool)
      && (e.reason == PoolEmpty ==> multiset(e.asked) == multiset(pool))
    decreases |pool|
  {
    if pool != [] {
      var q := pool[picks[n]];
      var rest := Splice(pool, IndexOf(pool, q));
      SplicePermutes(pool, IndexOf(pool, q));
      if n < |replies| && check(replies[n], q) {
        var e, e' := Run(pool, picks, replies, check, n), Run(rest, picks, replies, check, n + 1);
        RunAsksFromPool(rest, picks, replies, check, n + 1);
        assert e.asked == [q] + e'.asked;
        assert multiset(e.asked) == multiset{q} + multiset(e'.asked);
      }
    }
  }

  /** Rounds that scored consumed one reply each, and the exam waits for a
      reply only when the replies ran out. */
  lemma {:induction false} RunReplies(pool: seq<Quiz>, picks: seq<nat>, replies: seq<string>,
                                      check: (string, Quiz) -> bool, n: nat)
    requires Fits(picks, n, |pool|)
    ensures var e := Run(pool, picks, replies, check, n);
      e.score <= |e.asked|
      && (e.score > 0 ==> n + e.score <= |replies|)
      && (e.reason == AwaitingReply ==> n + e.score >= |replies|)
    decreases |pool|
  {
    if pool != [] {
      var q := pool[picks[n]];
      if n < |replies| && check(replies[n], q) {
        RunReplies(Splice(pool, IndexOf(pool, q)), picks, replies, check, n + 1);
      }
    }
  }

  /** Every point is a reply that passed the check against the quiz asked in
      that round. */
  lemma {:induction false} RunScores(pool: seq<Quiz>, picks: seq<nat>, replies: seq<string>,
                                     check: (string, Quiz) -> bool, n: nat)
    requires Fits(picks, n, |pool|)
    ensures var e := Run(pool, picks, replies, check, n);
      e.score <= |e.asked| && (e.score > 0 ==> n + e.score <= |replies|)
      && forall k :: 0 <= k < e.score ==> check(replies[n + k], e.asked[k])
    decreases |pool|
  {
    RunReplies(pool, picks, replies, check, n);
    if pool != [] {
      var q := pool[picks[n]];
      var rest := Splice(pool, IndexOf(pool, q));
      var e := Run(pool, picks, replies, check, n);
      if n < |replies| && check(replies[n], q) {
        var e' := Run(rest, picks, replies, check, n + 1);
        RunScores(rest, picks, replies, check, n + 1);
        assert e.asked == [q] + e'.asked;
        forall k | 0 <= k < e.score
          ensures check(replies[n + k], e.asked[k])
        {
          if k > 0 {
            assert e.asked[k] == e'.asked[k - 1];
            assert n + k == (n + 1) + (k - 1);
          }
        }
      }
    }
  }

  /** An exam ended by a wrong answer stopped at the first reply that failed
      the check, one round after the last point. */
  lemma {:induction false} RunStopsOnMiss(pool: seq<Quiz>, picks: seq<nat>, replies: seq<string>,
                                          check: (string, Quiz) -> bool, n: nat)
    requires Fits(picks, n, |pool|)
    requires Run(pool, picks, replies, check, n).reason == WrongAnswer
    ensures var e := Run(pool, picks, replies, check, n);
      n + e.score < |replies| && |e.asked| == e.score + 1
      && !check(replies[n + e.score], e.asked[e.score])
    decreases |pool|
  {
    var q := pool[picks[n]];
    var rest := Splice(pool, IndexOf(pool, q));
    if n < |replies| && check(replies[n], q) {
      var e, e' := Run(pool, picks, replies, check, n), Run(rest, picks, replies, check, n + 1);
      RunStopsOnMiss(rest, picks, replies, check, n + 1);
      assert e.asked == [q] + e'.asked;
      assert e.asked[e.score] == e'.asked[e'.score];
      assert n + e.score == (n + 1) + e'.score;
    }
  }

  /** An exam ends on an empty pool exactly when it has scored a point for
      every quiz of the pool. */
  lemma ExhaustedIffFullScore(pool: seq<Quiz>, picks: seq<nat>, replies: seq<string>,
                              check: (string, Quiz) -> bool, n: nat)
    requires Fits(picks, n, |pool|)
    ensures var e := Run(pool, picks, replies, check, n);
      e.reason == PoolEmpty <==> e.score == |pool|
  {
    var e := Run(pool, picks, replies, check, n);
    RunAsksFromPool(pool, picks, replies, check, n);
    RunFollowsDrawOrder(pool, picks, replies, check, n);
    if e.reason == PoolEmpty {
      assert |multiset(e.asked)| == |multiset(pool)|;
    }
  }

  /** The replies from round `n` on pass the check against the quizzes of
      `order`, one per round. */
  predicate AllPass(order: seq<Quiz>, replies: seq<string>, check: (string, Quiz) -> bool, n: nat) {
    n + |order| <= |replies|
    && forall k :: 0 <= k < |order| ==> check(replies[n + k], order[k])
  }

  /** When every reply passes the check against the quiz the draws put in
      its round, the exam asks the whole pool in draw order and scores a
      point for each quiz. */
  lemma {:induction false} AllCorrect(pool: seq<Quiz>, picks: seq<nat>, replies: seq<string>,
                                      check: (string, Quiz) -> bool, n: nat)
    requires Fits(picks, n, |pool|) && AllPass(DrawOrder(pool, picks, n), replies, check, n)
    ensures Run(pool, picks, replies, check, n) == Outcome(|pool|, PoolEmpty, DrawOrder(pool, picks, n))
    decreases |pool|
  {
    if pool != [] {
      var q := pool[picks[n]];
      var rest := Splice(pool, IndexOf(pool, q));
      var o' := DrawOrder(rest, picks, n + 1);
      assert DrawOrder(pool, picks, n) == [q] + o';
      PassesShift(q, o', replies, check, n);
      var e' := Run(rest, picks, replies, check, n + 1);
      assert Run(pool, picks, replies, check, n) == Outcome(e'.score + 1, e'.reason, [q] + e'.asked);
      AllCorrect(rest, picks, replies, check, n + 1);
    }
  }

  /** Replies that pass against `[q] + o` from round `n` on pass against `q`
      in round `n` and against `o` from round `n + 1` on. */
  lemma PassesShift(q: Quiz, o: seq<Quiz>, replies: seq<string>,
                    check: (string, Quiz) -> bool, n: nat)
    requires AllPass([q] + o, replies, check, n)
    ensures n < |replies| && check(replies[n], q)
    ensures AllPass(o, replies, check, n + 1)
  {
    assert check(replies[n + 0], ([q] + o)[0]);
    forall k | 0 <= k < |o|
      ensures check(replies[(n + 1) + k], o[k])
    {
      assert check(replies[n + (k + 1)], ([q] + o)[k + 1]);
      assert (n + 1) + k == n + (k + 1);
    }
  }

  // ---------------------------------------------------------------------------
  // No quiz is asked twice

  /** No two quizzes share an id, as for a snapshot of the repository. */
  predicate DistinctIds(s: seq<Quiz>) {
    forall i, j :: 0 <= i < j < |s| ==> s[i].id != s[j].id
  }

  /** In a pool without repeated ids, `indexOf` of the drawn quiz is the
      position it was drawn from, so each round removes exactly that quiz. */
  lemma IndexOfDrawn(pool: seq<Quiz>, i: nat)
    requires DistinctIds(pool) && i < |pool|
    ensures IndexOf(pool, pool[i]) == i
  {
  }

  /** A round removes exactly one copy of the drawn quiz and nothing else;
      with distinct ids it removes it from the very position it was drawn
      from, and the other quizzes keep their order. */
  lemma RoundRemovesDrawn(pool: seq<Quiz>, i: nat)
    requires i < |pool|
    ensures var rest := Splice(pool, IndexOf(pool, pool[i]));
      |rest| == |pool| - 1 && multiset(pool) == multiset(rest) + multiset{pool[i]}
    ensures DistinctIds(pool) ==> Splice(pool, IndexOf(pool, pool[i])) == pool[..i] + pool[i + 1..]
  {
    SplicePermutes(pool, IndexOf(pool, pool[i]));
    if DistinctIds(pool) {
      IndexOfDrawn(pool, i);
      SpliceSlices(pool, i);
    }
  }

  lemma SpliceKeepsDistinctIds(s: seq<Quiz>, k: nat)
    requires DistinctIds(s) && k < |s|
    ensures DistinctIds(Splice(s, k))
  {
    var r := Splice(s, k);
    SpliceKeepsOrder(s, k);
    forall i, j | 0 <= i < j < |r| ensures r[i].id != r[j].id {
      var i', j' := if i < k then i else i + 1, if j < k then j else j + 1;
      assert r[i] == s[i'] && r[j] == s[j'];
    }
  }

  /** With distinct ids, no quiz left after the splice has the id of the one removed. */
  lemma SpliceDropsId(s: seq<Quiz>, k: nat, x: Quiz)
    requires DistinctIds(s) && k < |s| && x in Splice(s, k)
    ensures x.id != s[k].id
  {
    var r := Splice(s, k);
    SpliceKeepsOrder(s, k);
    var i :| 0 <= i < |r| && r[i] == x;
    assert r[i] == s[if i < k then i else i + 1];
  }

  /** A quiz whose id differs from all of `t` can be put in front of it. */
  lemma ConsKeepsDistinctIds(q: Quiz, t: seq<Quiz>)
    requires DistinctIds(t) && forall x :: x in t ==> x.id != q.id
    ensures DistinctIds([q] + t)
  {
    var s := [q] + t;
    forall i, j | 0 <= i < j < |s| ensures s[i].id != s[j].id {
      assert s[j] == t[j - 1];
      if i > 0 {
        assert s[i] == t[i - 1];
      }
    }
  }

  /** Every quiz asked is one of the pool. */
  lemma {:induction false} RunAsksMembers(pool: seq<Quiz>, picks: seq<nat>, replies: seq<string>,
                                          check: (string, Quiz) -> bool, n: nat)
    requires Fits(picks, n, |pool|)
    ensures forall x :: x in Run(pool, picks, replies, check, n).asked ==> x in pool
    decreases |pool|
  {
    if pool != [] {
      var q := pool[picks[n]];
      var k := IndexOf(pool, q);
      var rest := Splice(pool, k);
      if n < |replies| && check(replies[n], q) {
        var e, e' := Run(pool, picks, replies, check, n), Run(rest, picks, replies, check, n + 1);
        RunAsksMembers(rest, picks, replies, check, n + 1);
        assert e.asked == [q] + e'.asked;
        forall x | x in e.asked ensures x in pool {
          if x != q {
            assert x in e'.asked;
            SpliceSubset(pool, k, x);
          }
        }
      }
    }
  }

  /** The quizzes asked in one exam have distinct ids when the snapshot does,
      so no quiz is asked twice. */
  lemma {:induction false} NoQuizAskedTwice(pool: seq<Quiz>, picks: seq<nat>, replies: seq<string>,
                                            check: (string, Quiz) -> bool, n: nat)
    requires Fits(picks, n, |pool|)
    requires DistinctIds(pool)
    ensures DistinctIds(Run(pool, picks, replies, check, n).asked)
    decreases |pool|
  {
    if pool != [] {
      var q := pool[picks[n]];
      var k := IndexOf(pool, q);
      var rest := Splice(pool, k);
      if n < |replies| && check(replies[n], q) {
        var e, e' := Run(pool, picks, replies, check, n), Run(rest, picks, replies, check, n + 1);
        SpliceKeepsDistinctIds(pool, k);
        NoQuizAskedTwice(rest, picks, replies, check, n + 1);
        RunAsksMembers(rest, picks, replies, check, n + 1);
        forall x | x in e'.asked ensures x.id != q.id {
          SpliceDropsId(pool, k, x);
        }
        ConsKeepsDistinctIds(q, e'.asked);
        assert e.asked == [q] + e'.asked;
      }
    }
  }

  // ---------------------------------------------------------------------------
  // The exam of `playCmd`, with the source's answer check

  /** In the exam as `playCmd` runs it, every point is a reply that matches
      the answer of the quiz asked in that round. */
  lemma ExamScores(quizzes: seq<Quiz>, draws: seq<real>, replies: seq<string>)
    requires ValidDraws(draws) && |quizzes| <= |draws|
    ensures var e := Run(quizzes, Picks(draws, |quizzes|), replies, Correct, 0);
      e.score <= |e.asked| <= |quizzes|
      && forall k :: 0 <= k < e.score ==> k < |replies| && Matches(replies[k], e.asked[k].answer)
  {
    var picks := Picks(draws, |quizzes|);
    var e := Run(quizzes, picks, replies, Correct, 0);
    RunReplies(quizzes, picks, replies, Correct, 0);
    RunFollowsDrawOrder(quizzes, picks, replies, Correct, 0);
    forall k | 0 <= k < e.score ensures k < |replies| && Matches(replies[k], e.asked[k].answer) {
      ExamPoint(quizzes, picks, replies, k, e);
    }
  }

  /** One point of `ExamScores`, for the outcome `e` of the exam. */
  lemma ExamPoint(quizzes: seq<Quiz>, picks: seq<nat>, replies: seq<string>, k: nat, e: Outcome)
    requires Fits(picks, 0, |quizzes|)
    requires e == Run(quizzes, picks, replies, Correct, 0) && k < e.score
    ensures k < |replies| && k < |e.asked| && Matches(replies[k], e.asked[k].answer)
  {
    RunPoint(quizzes, picks, replies, Correct, 0, k, e);
  }

  /** The reply of a round that scored passes the check. */
  lemma RunPoint(pool: seq<Quiz>, picks: seq<nat>, replies: seq<string>,
                 check: (string, Quiz) -> bool, n: nat, k: nat, e: Outcome)
    requires Fits(picks, n, |pool|)
    requires e == Run(pool, picks, replies, check, n) && k < e.score
    ensures n + k < |replies| && k < |e.asked| && check(replies[n + k], e.asked[k])
  {
    RunScores(pool, picks, replies, check, n);
  }

  /** In the exam as `playCmd` runs it, an exam that ends on a wrong answer
      has asked one quiz more than it scored, and the reply to that last quiz
      does not match its answer. */
  lemma ExamEndsOnMismatch(quizzes: seq<Quiz>, draws: seq<real>, replies: seq<string>)
    requires ValidDraws(draws) && |quizzes| <= |draws|
    requires Run(quizzes, Picks(draws, |quizzes|), replies, Correct, 0).reason == WrongAnswer
    ensures var e := Run(quizzes, Picks(draws, |quizzes|), replies, Correct, 0);
      e.score < |replies| && |e.asked| == e.score + 1
      && !Matches(replies[e.score], e.asked[e.score].answer)
  {
    var picks := Picks(draws, |quizzes|);
    ExamMiss(quizzes, picks, replies, Run(quizzes, picks, replies, Correct, 0));
  }

  /** `ExamEndsOnMismatch` for the positions `picks` and the outcome `e`. */
  lemma ExamMiss(quizzes: seq<Quiz>, picks: seq<nat>, replies: seq<string>, e: Outcome)
    requires Fits(picks, 0, |quizzes|)
    requires e == Run(quizzes, picks, replies, Correct, 0) && e.reason == WrongAnswer
    ensures e.score < |replies| && |e.asked| == e.score + 1
      && !Matches(replies[e.score], e.asked[e.score].answer)
  {
    RunStopsOnMiss(quizzes, picks, replies, Correct, 0);
  }

  // ---------------------------------------------------------------------------
  // Draws and scenarios

  /** Every position of a pool can be drawn: the draw `i / n` picks position `i`. */
  lemma PickReaches(i: nat, n: nat)
    requires i < n
    ensures 0.0 <= i as real / n as real < 1.0
    ensures Pick(i as real / n as real, n) == i
  {
    assert (i as real / n as real) * n as real == i as real;
  }

  /** Two quizzes drawn in stored order and both answered correctly: the
      exam ends on an empty pool with two points. */
  lemma TwoCorrectScenario()
    ensures var q1, q2 := Quiz(1, "2+2?", "4"), Quiz(2, "Capital of France?", "Paris");
      Run([q1, q2], Picks([0.0, 0.0], 2), ["4", "Paris"], Correct, 0) == Outcome(2, PoolEmpty, [q1, q2])
  {
    var q1, q2 := Quiz(1, "2+2?", "4"), Quiz(2, "Capital of France?", "Paris");
    var four, paris := "4", "Paris";
    var picks := Picks([0.0, 0.0], 2);
    assert picks[0] == 0 && picks[1] == 0 by {
      assert Pick(0.0, 2) == 0 && Pick(0.0, 1) == 0;
    }
    assert Correct(four, q1) by { TrimTight(four); }
    assert Correct(paris, q2) by { TrimTight(paris); }
    InOrderRounds(q1, q2, picks, [four, paris], Correct);
  }

  /** Two quizzes drawn in stored order, each passing the check. */
  lemma InOrderRounds(q1: Quiz, q2: Quiz, picks: seq<nat>, replies: seq<string>,
                      check: (string, Quiz) -> bool)
    requires |picks| >= 2 && picks[0] == 0 && picks[1] == 0 && |replies| >= 2
    requires check(replies[0], q1) && check(replies[1], q2)
    ensures Run([q1, q2], picks, replies, check, 0) == Outcome(2, PoolEmpty, [q1, q2])
  {
    assert Splice([q1, q2], IndexOf([q1, q2], q1)) == [q2];
    assert Splice([q2], IndexOf([q2], q2)) == [];
    assert Run([q2], picks, replies, check, 1) == Outcome(1, PoolEmpty, [q2]);
  }

  /** The second quiz drawn first and answered with the first one's answer:
      the exam ends after one question with no point, and the other quiz is
      never asked. */
  lemma WrongFirstScenario()
    ensures var q1, q2 := Quiz(1, "2+2?", "4"), Quiz(2, "Capital of France?", "Paris");
      Run([q1, q2], Picks([0.5, 0.0], 2), ["4", "Paris"], Correct, 0) == Outcome(0, WrongAnswer, [q2])
  {
    var q2 := Quiz(2, "Capital of France?", "Paris");
    var four, paris := "4", "Paris";
    var picks := Picks([0.5, 0.0], 2);
    assert picks[0] == 1 by {
      assert Pick(0.5, 2) == 1;
    }
    assert !Correct(four, q2) by {
      TrimTight(four);
      NormalizeTight(four);
      NormalizeTight(paris);
      assert |Normalize(four)| != |Normalize(paris)|;
    }
  }
}

/**
 * The answer handling of `on_message` as a transition on the riddle session: who may
 * still answer, the five-guess limit, the credit for a correct answer and the
 * one-time penalty for running out of guesses.
 */
module Answers {
  import opened Wrappers
  import opened Text
  import opened Riddles
  import opened Ledger

  /** Wrong guesses allowed per user and riddle. */
  const MaxGuesses: nat := 5

  /** The state a channel message can touch: the open riddle and whether its answer is
      out, the users who solved it, wrong-guess counts, the users already penalised for
      it, the in-memory score table, the score table as last saved, and the streaks. */
  datatype Session = Session(
    riddle: Option<Riddle>,
    revealed: bool,
    correct: set<string>,
    guesses: map<string, nat>,
    deducted: set<string>,
    scores: map<string, Score>,
    scoresFile: map<string, Score>,
    streaks: map<string, int>)

  /** What the handler did with a message. */
  datatype AnswerOutcome =
    | NoOpenRiddle          // nothing to answer, or the answer is already revealed
    | OwnRiddle             // the submitter may not answer their own riddle
    | AlreadySolved         // ignored: this user already answered correctly
    | OutOfGuesses          // refused: five wrong guesses already
    | Correct(credited: bool)
    | Wrong(guesses: nat, penalised: bool)

  function GuessesOf(guesses: map<string, nat>, uid: string): nat {
    if uid in guesses then guesses[uid] else 0
  }

  function StreakOf(streaks: map<string, int>, uid: string): int {
    if uid in streaks then streaks[uid] else 0
  }

  /** The riddle being answered has an identifier (riddles are posted with one). */
  predicate RiddleHasId(st: Session) {
    st.riddle.Some? ==> st.riddle.value.id.Some?
  }

  /** The guess book invariant: nobody has more than five wrong guesses, exactly the
      users with five wrong guesses have been penalised, and nobody who solved the
      riddle had run out of guesses. */
  ghost predicate GuessBookValid(guesses: map<string, nat>, deducted: set<string>, correct: set<string>) {
    && (forall u :: u in guesses ==> guesses[u] <= MaxGuesses)
    && (forall u :: u in deducted ==> GuessesOf(guesses, u) == MaxGuesses)
    && (forall u :: GuessesOf(guesses, u) == MaxGuesses ==> u in deducted)
    && (forall u :: u in correct ==> GuessesOf(guesses, u) < MaxGuesses)
  }

  /** The session invariant: the riddle has an identifier and the guess book is valid. */
  ghost predicate SessionValid(st: Session) {
    RiddleHasId(st) && GuessBookValid(st.guesses, st.deducted, st.correct)
  }

  /** The session invariant does not depend on the score tables. */
  lemma SessionValidIgnoresScores(st: Session, scores: map<string, Score>, scoresFile: map<string, Score>)
    requires SessionValid(st)
    ensures SessionValid(st.(scores := scores, scoresFile := scoresFile))
  {
  }

  /** A message is compared after stripping it; both sides are lower-cased, and a riddle
      without an answer compares as the empty text. */
  predicate AnswerMatches(content: string, answer: Option<string>) {
    Lower(Strip(content)) == Lower(answer.GetOr(""))
  }

  /** A guess matches when the stripped message and the answer have the same length and
      agree at every position once each character is lower-cased. */
  lemma AnswerMatchesCharwise(content: string, answer: Option<string>)
    ensures AnswerMatches(content, answer) <==> var guess, expected := Strip(content), answer.GetOr("");
      && |guess| == |expected|
      && forall i :: 0 <= i < |guess| ==> LowerChar(guess[i]) == LowerChar(expected[i])
  {
    LowerEqualCharwise(Strip(content), answer.GetOr(""));
  }

  lemma LowerEqualCharwise(a: string, b: string)
    ensures Lower(a) == Lower(b) <==> |a| == |b| && forall i :: 0 <= i < |a| ==> LowerChar(a[i]) == LowerChar(b[i])
  {
    if Lower(a) == Lower(b) {
      LowerEqualGivesChars(a, b);
    } else if |a| == |b| {
      if forall i :: 0 <= i < |a| ==> LowerChar(a[i]) == LowerChar(b[i]) {
        CharsGiveLowerEqual(a, b);
      }
    }
  }

  lemma LowerEqualGivesChars(a: string, b: string)
    requires Lower(a) == Lower(b)
    ensures |a| == |b| && forall i :: 0 <= i < |a| ==> LowerChar(a[i]) == LowerChar(b[i])
  {
    forall i | 0 <= i < |a|
      ensures LowerChar(a[i]) == LowerChar(b[i])
    {
      assert Lower(a)[i] == Lower(b)[i];
    }
  }

  lemma CharsGiveLowerEqual(a: string, b: string)
    requires |a| == |b| && forall i :: 0 <= i < |a| ==> LowerChar(a[i]) == LowerChar(b[i])
    ensures Lower(a) == Lower(b)
  {
    var la, lb := Lower(a), Lower(b);
    assert forall i :: 0 <= i < |la| ==> la[i] == lb[i];
  }

  /** The message is considered as a guess at all. */
  predicate Accepted(st: Session, uid: string) {
    && st.riddle.Some? && !st.revealed
    && st.riddle.value.submitter != Some(uid)
    && uid !in st.correct
    && GuessesOf(st.guesses, uid) < MaxGuesses
  }

  /** The correct-answer branch: the user joins the solvers; a creditable answer adds a
      point and a streak day and saves the table. */
  function Solve(st: Session, uid: string, id: Key): (r: (Session, AnswerOutcome))
    ensures r.1 == Correct(Creditable(st.scores, uid, id))
    ensures r.0.riddle == st.riddle && r.0.revealed == st.revealed
    ensures r.0.correct == st.correct + {uid}
    ensures r.0.guesses == st.guesses && r.0.deducted == st.deducted
    ensures r.0.scores == CreditAnswer(st.scores, uid, id)
    ensures UserTotal(r.0.scores, uid) == UserTotal(st.scores, uid) + (if r.1.credited then 1 else 0)
    ensures r.1.credited ==> r.0.scoresFile == r.0.scores && r.0.streaks == st.streaks[uid := StreakOf(st.streaks, uid) + 1]
    ensures !r.1.credited ==> r.0.scoresFile == st.scoresFile && r.0.streaks == st.streaks
  {
    var credited := Creditable(st.scores, uid, id);
    var scores := CreditAnswer(st.scores, uid, id);
    (st.(correct := st.correct + {uid},
         scores := scores,
         scoresFile := if credited then scores else st.scoresFile,
         streaks := if credited then st.streaks[uid := StreakOf(st.streaks, uid) + 1] else st.streaks),
     Correct(credited))
  }

  /** The wrong-answer branch: one more guess; reaching the limit for the first time
      costs a point and saves the table. */
  function Miss(st: Session, uid: string): (r: (Session, AnswerOutcome))
    ensures r.1.Wrong? && r.1.guesses == GuessesOf(st.guesses, uid) + 1
    ensures r.0.riddle == st.riddle && r.0.revealed == st.revealed
    ensures r.0.guesses == st.guesses[uid := r.1.guesses]
    ensures r.0.correct == st.correct && r.0.streaks == st.streaks
    ensures r.1.penalised <==> r.1.guesses >= MaxGuesses && uid !in st.deducted
    ensures r.1.penalised ==> r.0.deducted == st.deducted + {uid} && r.0.scores == Deduct(st.scores, uid) && r.0.scoresFile == r.0.scores
    ensures !r.1.penalised ==> r.0.deducted == st.deducted && r.0.scores == st.scores && r.0.scoresFile == st.scoresFile
  {
    var g := GuessesOf(st.guesses, uid) + 1;
    var penalise := g >= MaxGuesses && uid !in st.deducted;
    var scores := if penalise then Deduct(st.scores, uid) else st.scores;
    (st.(guesses := st.guesses[uid := g],
         deducted := if penalise then st.deducted + {uid} else st.deducted,
         scores := scores,
         scoresFile := if penalise then scores else st.scoresFile),
     Wrong(g, penalise))
  }

  /** 23:00 UTC, the time the answer is revealed, as seconds after midnight. */
  const RevealSecond: int := 23 * 3600

  /** The countdown sent after a wrong guess, from the current second of the UTC day:
      whole minutes and seconds until 23:00, or zero once that time has passed. */
  function RevealCountdown(now: int): (r: (nat, nat))
    ensures r.1 < 60
    ensures r.0 * 60 + r.1 == Max(0, RevealSecond - now)
    ensures now >= RevealSecond <==> r == (0, 0)
  {
    var left := Max(0, RevealSecond - now);
    (left / 60, left % 60)
  }

  /** `on_message` for a message `content` from user `uid` in the riddle channel. */
  function OnMessage(st: Session, uid: string, content: string): (r: (Session, AnswerOutcome))
    requires RiddleHasId(st)
    ensures r.0.riddle == st.riddle && r.0.revealed == st.revealed
    ensures r.1 == NoOpenRiddle <==> st.riddle.None? || st.revealed
    ensures r.1 == OwnRiddle <==> st.riddle.Some? && !st.revealed && st.riddle.value.submitter == Some(uid)
    ensures r.1 == AlreadySolved <==>
      st.riddle.Some? && !st.revealed && st.riddle.value.submitter != Some(uid) && uid in st.correct
    ensures r.1 == OutOfGuesses <==>
      && st.riddle.Some? && !st.revealed && st.riddle.value.submitter != Some(uid) && uid !in st.correct
      && GuessesOf(st.guesses, uid) >= MaxGuesses
    ensures !Accepted(st, uid) ==> r.0 == st && !r.1.Correct? && !r.1.Wrong?
    ensures Accepted(st, uid) && AnswerMatches(content, st.riddle.value.answer) ==>
      r == Solve(st, uid, st.riddle.value.id.value)
    ensures Accepted(st, uid) && !AnswerMatches(content, st.riddle.value.answer) ==> r == Miss(st, uid)
  {
    if st.riddle.None? || st.revealed then (st, NoOpenRiddle)
    else
      var riddle := st.riddle.value;
      if riddle.submitter == Some(uid) then (st, OwnRiddle)
      else if uid in st.correct then (st, AlreadySolved)
      else if GuessesOf(st.guesses, uid) >= MaxGuesses then (st, OutOfGuesses)
      else if AnswerMatches(content, riddle.answer) then Solve(st, uid, riddle.id.value)
      else Miss(st, uid)
  }

  /** Going from `st` to `next` changed the score and the streak of `uid` only: every
      other user's entries stay, and no score became negative. */
  ghost predicate OnlyAuthorTouched(st: Session, next: Session, uid: string) {
    && (forall v :: v != uid && v in st.scores ==> v in next.scores && next.scores[v] == st.scores[v])
    && (forall v :: v != uid ==> (v in next.scores <==> v in st.scores))
    && (forall v :: v != uid ==> StreakOf(next.streaks, v) == StreakOf(st.streaks, v))
    && next.streaks.Keys <= st.streaks.Keys + {uid}
    && (NonNegative(st.scores) ==> NonNegative(next.scores))
  }

  /** A message changes the score and the streak of its author only. */
  lemma OnMessageTouchesOnlyAuthor(st: Session, uid: string, content: string)
    requires RiddleHasId(st)
    ensures OnlyAuthorTouched(st, OnMessage(st, uid, content).0, uid)
  {
    if Accepted(st, uid) {
      var riddle := st.riddle.value;
      if AnswerMatches(content, riddle.answer) {
        SolveTouchesOnlyAuthor(st, uid, riddle.id.value);
      } else {
        MissTouchesOnlyAuthor(st, uid);
      }
    }
  }

  lemma SolveTouchesOnlyAuthor(st: Session, uid: string, id: Key)
    ensures OnlyAuthorTouched(st, Solve(st, uid, id).0, uid)
  {
  }

  lemma MissTouchesOnlyAuthor(st: Session, uid: string)
    ensures OnlyAuthorTouched(st, Miss(st, uid).0, uid)
  {
  }

  /** A wrong guess by a user who had guesses left keeps the guess book valid, the user
      being penalised exactly when the count reaches five. */
  lemma WrongGuessKeepsBook(guesses: map<string, nat>, deducted: set<string>, correct: set<string>, uid: string)
    requires GuessBookValid(guesses, deducted, correct)
    requires uid !in correct && GuessesOf(guesses, uid) < MaxGuesses
    ensures var g := GuessesOf(guesses, uid) + 1;
      GuessBookValid(guesses[uid := g], if g >= MaxGuesses && uid !in deducted then deducted + {uid} else deducted, correct)
  {
    var g := GuessesOf(guesses, uid) + 1;
    var guesses' := guesses[uid := g];
    var deducted' := if g >= MaxGuesses && uid !in deducted then deducted + {uid} else deducted;
    forall u
      ensures GuessesOf(guesses', u) == (if u == uid then g else GuessesOf(guesses, u))
    {
    }
    forall u | u in deducted'
      ensures GuessesOf(guesses', u) == MaxGuesses
    {
      if u != uid {
        assert u in deducted;
      }
    }
  }

  lemma MissKeepsSessionValid(st: Session, uid: string)
    requires SessionValid(st) && uid !in st.correct && GuessesOf(st.guesses, uid) < MaxGuesses
    ensures SessionValid(Miss(st, uid).0)
  {
    WrongGuessKeepsBook(st.guesses, st.deducted, st.correct, uid);
  }

  /** A correct answer by a user who had guesses left keeps the session invariant. */
  lemma SolveKeepsSessionValid(st: Session, uid: string, id: Key)
    requires SessionValid(st) && GuessesOf(st.guesses, uid) < MaxGuesses
    ensures SessionValid(Solve(st, uid, id).0)
  {
  }

  /** A message keeps the session invariant: guess counts stay at most five and the
      penalised users stay exactly those at the limit. */
  lemma OnMessageKeepsSessionValid(st: Session, uid: string, content: string)
    requires SessionValid(st)
    ensures SessionValid(OnMessage(st, uid, content).0)
  {
    if Accepted(st, uid) {
      if AnswerMatches(content, st.riddle.value.answer) {
        SolveKeepsSessionValid(st, uid, st.riddle.value.id.value);
      } else {
        MissKeepsSessionValid(st, uid);
      }
    }
  }

  /** Once penalised, a user's further messages on the same riddle are refused and change
      nothing: the penalty cannot be applied a second time. */
  lemma PenalisedUserIsRefused(st: Session, uid: string, content: string)
    requires SessionValid(st)
    requires uid in st.deducted && st.riddle.Some? && !st.revealed
    requires st.riddle.value.submitter != Some(uid) && uid !in st.correct
    ensures OnMessage(st, uid, content) == (st, OutOfGuesses)
  {
  }

  /** Once a user has solved the riddle, further messages from them are ignored. */
  lemma SolverIsIgnored(st: Session, uid: string, content: string, later: string)
    requires RiddleHasId(st)
    requires OnMessage(st, uid, content).1.Correct?
    ensures var next := OnMessage(st, uid, content).0;
      OnMessage(next, uid, later) == (next, AlreadySolved)
  {
  }

  /** Messages as `(author, text)`, processed in order. */
  type Message = (string, string)

  function Replay(st: Session, msgs: seq<Message>): (r: Session)
    requires RiddleHasId(st)
    ensures RiddleHasId(r) && r.riddle == st.riddle
    decreases |msgs|
  {
    if msgs == [] then st
    else Replay(OnMessage(st, msgs[0].0, msgs[0].1).0, msgs[1..])
  }

  /** How many of `msgs` penalise user `uid`. */
  function PenaltiesFor(st: Session, msgs: seq<Message>, uid: string): nat
    requires RiddleHasId(st)
    decreases |msgs|
  {
    if msgs == [] then 0
    else
      var step := OnMessage(st, msgs[0].0, msgs[0].1);
      (if msgs[0].0 == uid && step.1.Wrong? && step.1.penalised then 1 else 0)
        + PenaltiesFor(step.0, msgs[1..], uid)
  }

  /** How many of `msgs` are accepted as correct answers from user `uid`. */
  function SolvesBy(st: Session, msgs: seq<Message>, uid: string): nat
    requires RiddleHasId(st)
    decreases |msgs|
  {
    if msgs == [] then 0
    else
      var step := OnMessage(st, msgs[0].0, msgs[0].1);
      (if msgs[0].0 == uid && step.1.Correct? then 1 else 0) + SolvesBy(step.0, msgs[1..], uid)
  }

  /** Whatever messages follow, a user loses a point for a riddle at most once, and not
      at all if already penalised for it. */
  lemma {:induction false} PenaltyAtMostOncePerRiddle(st: Session, msgs: seq<Message>, uid: string)
    requires RiddleHasId(st)
    ensures PenaltiesFor(st, msgs, uid) + (if uid in st.deducted then 1 else 0) <= 1
    decreases |msgs|
  {
    if msgs != [] {
      var step := OnMessage(st, msgs[0].0, msgs[0].1);
      PenaltyAtMostOncePerRiddle(step.0, msgs[1..], uid);
      assert st.deducted <= step.0.deducted;
      if msgs[0].0 == uid && step.1.Wrong? && step.1.penalised {
        assert uid !in st.deducted && uid in step.0.deducted;
      }
    }
  }

  /** Whatever messages follow, a user's answer is accepted as correct at most once per
      riddle, and not at all if they already solved it. */
  lemma {:induction false} SolvedAtMostOncePerRiddle(st: Session, msgs: seq<Message>, uid: string)
    requires RiddleHasId(st)
    ensures SolvesBy(st, msgs, uid) + (if uid in st.correct then 1 else 0) <= 1
    decreases |msgs|
  {
    if msgs != [] {
      var step := OnMessage(st, msgs[0].0, msgs[0].1);
      SolvedAtMostOncePerRiddle(step.0, msgs[1..], uid);
      assert st.correct <= step.0.correct;
      if msgs[0].0 == uid && step.1.Correct? {
        assert uid !in st.correct && uid in step.0.correct;
      }
    }
  }

  /** The session invariant holds after any sequence of messages, so guess counts never
      exceed five. */
  lemma {:induction false} ReplayKeepsSessionValid(st: Session, msgs: seq<Message>)
    requires SessionValid(st)
    ensures SessionValid(Replay(st, msgs))
    ensures forall u :: u in Replay(st, msgs).guesses ==> Replay(st, msgs).guesses[u] <= MaxGuesses
    decreases |msgs|
  {
    if msgs != [] {
      OnMessageKeepsSessionValid(st, msgs[0].0, msgs[0].1);
      ReplayKeepsSessionValid(OnMessage(st, msgs[0].0, msgs[0].1).0, msgs[1..]);
    }
  }
}

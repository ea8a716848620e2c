/**
 * The bot's module-level state and the handlers that change it: the riddle queue
 * and its identifier counter, the riddle picker, riddle submission and removal, the
 * administrators' point adjustments, and answer handling in the riddle channel.
 */
module Bot {
  import opened Wrappers
  import opened Text
  import opened Riddles
  import opened Ledger
  import opened Answers

  /** Result of a riddle submission. */
  datatype SubmitOutcome = Duplicate | Submitted(id: Key, awarded: bool)

  class RiddleBot {
    var questions: seq<Riddle>
    var scores: map<string, Score>
    /** The contents of `scores.json` as last written. */
    var scoresFile: map<string, Score>
    var streaks: map<string, int>
    var usedIds: set<Key>
    var maxId: nat
    /** Every identifier the queue has held since start-up, loaded or issued. */
    ghost var issued: set<Key>
    var submissionDates: map<string, Day>
    var currentRiddle: Option<Riddle>
    var answerRevealed: bool
    var correctUsers: set<string>
    var guessAttempts: map<string, nat>
    var deducted: set<string>

    /** The part of the state a channel message works on. */
    function CurrentSession(): Session
      reads this`currentRiddle, this`answerRevealed, this`correctUsers, this`guessAttempts, this`deducted
      reads this`scores, this`scoresFile, this`streaks
    {
      Session(currentRiddle, answerRevealed, correctUsers, guessAttempts, deducted,
              scores, scoresFile, streaks)
    }

    /** The counter bounds every identifier seen, so the next one issued is new. */
    ghost predicate QueueValid()
      reads this`questions, this`issued, this`maxId
    {
      KeysOf(questions) <= issued && KeysAtMost(issued, maxId)
    }

    /** The queue invariant, and the answer session keeps its invariant. */
    ghost predicate Valid()
      reads this
    {
      QueueValid() && SessionValid(CurrentSession())
    }

    /** Start-up: the loaded queue, scores and streaks; the counter starts at the
        largest numeric identifier in the queue. */
    constructor (loadedQuestions: seq<Riddle>, loadedScores: map<string, Score>, loadedStreaks: map<string, int>)
      ensures Valid()
      ensures questions == loadedQuestions && scores == loadedScores && scoresFile == loadedScores
      ensures streaks == loadedStreaks
      ensures KeysAtMost(KeysOf(loadedQuestions), maxId)
      ensures maxId == 0 ||
        exists i :: 0 <= i < |loadedQuestions| && loadedQuestions[i].id.Some? && NumericId(loadedQuestions[i].id.value) == Some(maxId)
      ensures usedIds == {} && submissionDates == map[]
      ensures currentRiddle == None && !answerRevealed
      ensures correctUsers == {} && guessAttempts == map[] && deducted == {}
    {
      var m := InitialMaxId(loadedQuestions);
      questions := loadedQuestions;
      scores := loadedScores;
      scoresFile := loadedScores;
      streaks := loadedStreaks;
      usedIds := {};
      maxId := m;
      issued := KeysOf(loadedQuestions);
      submissionDates := map[];
      currentRiddle := None;
      answerRevealed := false;
      correctUsers := {};
      guessAttempts := map[];
      deducted := {};
    }

    /** `get_next_id`: advance the counter and return its text. */
    method NextId() returns (id: Key)
      modifies this`maxId
      ensures maxId == old(maxId) + 1 && id == IssuedKey(maxId)
      ensures NumericId(id) == Some(maxId)
    {
      maxId := maxId + 1;
      id := IssuedKey(maxId);
      DigitsRoundTrip(maxId);
    }

    /** `pick_next_riddle`: a record with an identifier drawn from those not yet used;
        when all are used the used set starts over. The draw is arbitrary. */
    method PickNextRiddle() returns (riddle: Riddle)
      requires exists i :: 0 <= i < |questions| && questions[i].id.Some?
      modifies this`usedIds
      ensures riddle in questions && riddle.id.Some?
      ensures Pool(questions, old(usedIds)) != [] ==>
        riddle.id.value !in old(usedIds) && usedIds == old(usedIds) + {riddle.id.value}
      ensures Pool(questions, old(usedIds)) == [] ==> usedIds == {riddle.id.value}
    {
      var unused := Pool(questions, usedIds);
      if unused == [] {
        usedIds := {};
        unused := Pool(questions, {});
        var w :| 0 <= w < |questions| && questions[w].id.Some?;
        assert questions[w] in questions;
        assert questions[w] in unused;
      }
      var k :| 0 <= k < |unused|;
      riddle := unused[k];
      assert riddle in unused;
      usedIds := usedIds + {riddle.id.value};
    }

    /** The submission form: a duplicate is refused; otherwise the riddle is queued
        under a new identifier and the submitter earns one point per day. */
    method Submit(rawQuestion: string, rawAnswer: string, uid: string, today: Day) returns (outcome: SubmitOutcome)
      requires Valid()
      requires IsDuplicate(questions, rawQuestion) || AwardedOn(submissionDates, uid, today) ||
        uid !in scores || scores[uid].Legacy?
      modifies this`questions, this`maxId, this`issued, this`scores, this`scoresFile, this`submissionDates
      ensures Valid()
      ensures outcome == Duplicate <==> IsDuplicate(old(questions), rawQuestion)
      ensures outcome == Duplicate ==>
        && questions == old(questions) && maxId == old(maxId)
        && scores == old(scores) && scoresFile == old(scoresFile)
        && submissionDates == old(submissionDates)
      ensures outcome.Submitted? ==>
        && maxId == old(maxId) + 1 && outcome.id == IssuedKey(maxId)
        && outcome.id !in KeysOf(old(questions))
        && questions == old(questions) +
             [Riddle(Some(outcome.id), SubmittedText(rawQuestion), Some(Strip(rawAnswer)), Some(uid))]
        && outcome.awarded == !AwardedOn(old(submissionDates), uid, today)
        && (scores, submissionDates) == DailyAward(old(scores), old(submissionDates), uid, today)
        && scoresFile == (if outcome.awarded then scores else old(scoresFile))
    {
      var dup := FindDuplicate(questions, rawQuestion);
      if dup {
        return Duplicate;
      }
      ghost var session := CurrentSession();
      var id := Enqueue(SubmittedText(rawQuestion), Strip(rawAnswer), uid);
      assert CurrentSession() == session;
      var awarded := AwardSubmission(uid, today);
      outcome := Submitted(id, awarded);
    }

    /** A new record under the next identifier goes to the end of the queue. */
    method Enqueue(question: string, answer: string, uid: string) returns (id: Key)
      requires QueueValid()
      modifies this`questions, this`maxId, this`issued
      ensures QueueValid()
      ensures maxId == old(maxId) + 1 && id == IssuedKey(maxId)
      ensures id !in KeysOf(old(questions))
      ensures questions == old(questions) + [Riddle(Some(id), question, Some(answer), Some(uid))]
    {
      id := NextId();
      var r := Riddle(Some(id), question, Some(answer), Some(uid));
      AppendIssued(questions, issued, maxId - 1, r);
      questions := questions + [r];
      issued := issued + {id};
    }

    /** The once-a-day submission point, saved when awarded. */
    method AwardSubmission(uid: string, today: Day) returns (awarded: bool)
      requires SessionValid(CurrentSession())
      requires AwardedOn(submissionDates, uid, today) || uid !in scores || scores[uid].Legacy?
      modifies this`scores, this`scoresFile, this`submissionDates
      ensures SessionValid(CurrentSession())
      ensures awarded == !AwardedOn(old(submissionDates), uid, today)
      ensures (scores, submissionDates) == DailyAward(old(scores), old(submissionDates), uid, today)
      ensures scoresFile == (if awarded then scores else old(scoresFile))
    {
      ghost var before := CurrentSession();
      awarded := !AwardedOn(submissionDates, uid, today);
      var award := DailyAward(scores, submissionDates, uid, today);
      scores := award.0;
      submissionDates := award.1;
      if awarded {
        scoresFile := scores;
      }
      SessionValidIgnoresScores(before, scores, scoresFile);
      assert CurrentSession() == before.(scores := scores, scoresFile := scoresFile);
    }

    /** The removal form: the first record whose identifier is the entered text,
        stripped, is taken out of the queue. */
    method Remove(rawId: string) returns (removed: Option<Riddle>)
      requires Valid()
      modifies this`questions
      ensures Valid()
      ensures removed.None? <==>
        forall i :: 0 <= i < |old(questions)| ==> old(questions)[i].id != Some(TextKey(Strip(rawId)))
      ensures removed.None? ==> questions == old(questions)
      ensures removed.Some? ==> exists i ::
        && IsFirstWithId(old(questions), TextKey(Strip(rawId)), i)
        && removed.value == old(questions)[i]
        && questions == RemoveAt(old(questions), i)
    {
      removed := RemoveKey(TextKey(Strip(rawId)));
    }

    /** Takes the first record with identifier `key` out of the queue, if there is one. */
    method RemoveKey(key: Key) returns (removed: Option<Riddle>)
      requires Valid()
      modifies this`questions
      ensures Valid()
      ensures removed.None? <==> forall i :: 0 <= i < |old(questions)| ==> old(questions)[i].id != Some(key)
      ensures removed.None? ==> questions == old(questions)
      ensures removed.Some? ==> exists i ::
        && IsFirstWithId(old(questions), key, i)
        && removed.value == old(questions)[i]
        && questions == RemoveAt(old(questions), i)
    {
      var idx := FindRiddle(questions, key);
      if idx.None? {
        return None;
      }
      var i := idx.value;
      removed := Some(questions[i]);
      RemoveAtKeys(questions, i);
      questions := RemoveAt(questions, i);
    }

    /** The points form as written: the adjustment is applied to the score file, and
        the in-memory table that later saves write out is left as it was. */
    method AdjustPoints(uid: string, pointType: string, quantity: string, action: AdjustAction)
      returns (error: Option<AdjustError>)
      modifies this`scoresFile
      ensures match Adjust(old(scoresFile), uid, pointType, quantity, action)
        case Ok(adjusted) => error.None? && scoresFile == adjusted
        case Err(e) => error == Some(e) && scoresFile == old(scoresFile)
    {
      var result := Adjust(scoresFile, uid, pointType, quantity, action);
      match result
      case Ok(adjusted) =>
        scoresFile := adjusted;
        error := None;
      case Err(e) =>
        error := Some(e);
    }

    /** The points form as evidently intended: the in-memory table is adjusted and
        saved, so the adjustment is what later reads and saves see. */
    method AdjustPointsInMemory(uid: string, pointType: string, quantity: string, action: AdjustAction)
      returns (error: Option<AdjustError>)
      requires Valid()
      modifies this`scores, this`scoresFile
      ensures Valid()
      ensures match Adjust(old(scores), uid, pointType, quantity, action)
        case Ok(adjusted) => error.None? && scores == adjusted && scoresFile == adjusted
        case Err(e) => error == Some(e) && scores == old(scores) && scoresFile == old(scoresFile)
    {
      var result := Adjust(scores, uid, pointType, quantity, action);
      match result
      case Ok(adjusted) =>
        SaveScores(adjusted);
        error := None;
      case Err(e) =>
        error := Some(e);
    }

    /** Replaces the in-memory table and writes it to the score file. */
    method SaveScores(table: map<string, Score>)
      requires Valid()
      modifies this`scores, this`scoresFile
      ensures Valid()
      ensures scores == table && scoresFile == table
    {
      ghost var before := CurrentSession();
      scores := table;
      scoresFile := table;
      SessionValidIgnoresScores(before, scores, scoresFile);
      assert CurrentSession() == before.(scores := scores, scoresFile := scoresFile);
    }

    /** `on_message` for a message in the riddle channel, step by step; the result is
        the session transition `OnMessage`. */
    method HandleMessage(uid: string, content: string) returns (outcome: AnswerOutcome)
      requires Valid()
      modifies this`correctUsers, this`guessAttempts, this`deducted, this`scores, this`scoresFile, this`streaks
      ensures Valid()
      ensures (CurrentSession(), outcome) == OnMessage(old(CurrentSession()), uid, content)
    {
      ghost var before := CurrentSession();
      OnMessageKeepsSessionValid(before, uid, content);
      if currentRiddle.None? || answerRevealed {
        return NoOpenRiddle;
      }
      var riddle := currentRiddle.value;
      if riddle.submitter == Some(uid) {
        return OwnRiddle;
      }
      if uid in correctUsers {
        return AlreadySolved;
      }
      var guesses := GuessesOf(guessAttempts, uid);
      if guesses >= MaxGuesses {
        return OutOfGuesses;
      }
      if AnswerMatches(content, riddle.answer) {
        outcome := RecordCorrectAnswer(uid, riddle.id.value);
      } else {
        outcome := RecordWrongGuess(uid);
      }
    }

    /** A correct answer: the user joins the solvers; unless a record score already
        lists this riddle, one contribution point and one streak day are added and
        the scores saved. */
    method RecordCorrectAnswer(uid: string, id: Key) returns (outcome: AnswerOutcome)
      modifies this`correctUsers, this`scores, this`scoresFile, this`streaks
      ensures (CurrentSession(), outcome) == Solve(old(CurrentSession()), uid, id)
    {
      correctUsers := correctUsers + {uid};
      var credited := Creditable(scores, uid, id);
      scores := CreditAnswer(scores, uid, id);
      if credited {
        streaks := streaks[uid := StreakOf(streaks, uid) + 1];
        scoresFile := scores;
      }
      outcome := Correct(credited);
    }

    /** A wrong guess: one more attempt; on reaching the limit for the first time the
        user loses a point and the scores are saved. */
    method RecordWrongGuess(uid: string) returns (outcome: AnswerOutcome)
      modifies this`guessAttempts, this`deducted, this`scores, this`scoresFile
      ensures (CurrentSession(), outcome) == Miss(old(CurrentSession()), uid)
    {
      var guesses := GuessesOf(guessAttempts, uid) + 1;
      guessAttempts := guessAttempts[uid := guesses];
      var penalise := guesses >= MaxGuesses && uid !in deducted;
      if penalise {
        Penalise(uid);
      }
      outcome := Wrong(guesses, penalise);
    }

    /** The penalty for running out of guesses: the user is marked, loses a point, and
        the scores are saved. */
    method Penalise(uid: string)
      modifies this`deducted, this`scores, this`scoresFile
      ensures deducted == old(deducted) + {uid}
      ensures scores == Deduct(old(scores), uid) && scoresFile == scores
    {
      deducted := deducted + {uid};
      scores := Deduct(scores, uid);
      scoresFile := scores;
    }
  }

  /** As written, an adjustment for a user without an entry in memory is lost: the next
      save of the in-memory table writes a table without that user. The save main.py
      reaches is the one after another user's first riddle submission of the day; the
      saves after a correct answer or a penalty lose it the same way. */
  lemma FileAdjustmentLostOnNextSave(scores: map<string, Score>, dates: map<string, Day>, uid: string,
                                     pointType: string, quantity: string, action: AdjustAction,
                                     other: string, today: Day, id: Key)
    requires uid !in scores && other != uid
    requires Adjust(scores, uid, pointType, quantity, action).Ok?
    requires AwardedOn(dates, other, today) || other !in scores || scores[other].Legacy?
    ensures uid in Adjust(scores, uid, pointType, quantity, action).value
    ensures uid !in DailyAward(scores, dates, other, today).0
    ensures uid !in CreditAnswer(scores, other, id)
  {
  }

  /** Adjusting the in-memory table, the adjustment survives the next save caused by
      another user's daily submission point, correct answer or penalty. */
  lemma MemoryAdjustmentSurvivesNextSave(scores: map<string, Score>, dates: map<string, Day>, uid: string,
                                         pointType: string, quantity: string, action: AdjustAction,
                                         other: string, today: Day, id: Key)
    requires other != uid
    requires Adjust(scores, uid, pointType, quantity, action).Ok?
    requires AwardedOn(dates, other, today) || other !in scores || scores[other].Legacy?
    ensures var adjusted := Adjust(scores, uid, pointType, quantity, action).value;
      && (AwardedOn(dates, other, today) || other !in adjusted || adjusted[other].Legacy?)
      && uid in DailyAward(adjusted, dates, other, today).0
      && DailyAward(adjusted, dates, other, today).0[uid] == adjusted[uid]
    ensures var adjusted := Adjust(scores, uid, pointType, quantity, action).value;
      && uid in CreditAnswer(adjusted, other, id) && CreditAnswer(adjusted, other, id)[uid] == adjusted[uid]
      && uid in Deduct(adjusted, other) && Deduct(adjusted, other)[uid] == adjusted[uid]
  {
  }
}

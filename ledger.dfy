/**
 * The score ledger of the bot (`scores.json`): one entry per user, either a legacy
 * bare integer or a record of insight points, contribution points and the riddles
 * already credited; the operations that award, deduct and adjust points; the value
 * that is displayed and ranked; and the rank titles of `get_rank`.
 */
module Ledger {
  import opened Wrappers
  import opened Text
  import opened Riddles

  /** A calendar date, given as a day number (the bot reads it from `date.today()`). */
  type Day = int

  /** A user's entry in the score table. */
  datatype Score =
    | Legacy(points: int)
    | Record(insight: int, contribution: int, answered: seq<Key>)

  /** The entry a user gets when the code creates one from scratch; a key missing from a
      stored record reads as this default everywhere the code reads it. */
  const FreshRecord: Score := Record(0, 0, [])

  predicate NonNegativeScore(s: Score) {
    match s
    case Legacy(p) => p >= 0
    case Record(i, c, _) => i >= 0 && c >= 0
  }

  /** The invariant the ledger is meant to keep: no point field is negative. */
  ghost predicate NonNegative(scores: map<string, Score>) {
    forall u :: u in scores ==> NonNegativeScore(scores[u])
  }

  /** The displayed score: a legacy integer as it is, a record as insight plus contribution. */
  function ScoreValue(s: Score): (v: int)
    ensures NonNegativeScore(s) ==> v >= 0
    ensures s.Record? && NonNegativeScore(s) ==> v >= s.insight && v >= s.contribution
  {
    match s
    case Legacy(p) => p
    case Record(i, c, _) => i + c
  }

  /** `/score`: the value of the user's entry, 0 for a user without one. */
  function UserTotal(scores: map<string, Score>, uid: string): (v: int)
    ensures NonNegative(scores) ==> v >= 0
    ensures uid !in scores ==> v == 0
  {
    if uid in scores then ScoreValue(scores[uid]) else 0
  }

  function Max(a: int, b: int): int {
    if a >= b then a else b
  }

  // ---------------------------------------------------------------------------
  // Daily submission point

  /** The user was already given the submission point on `today`. */
  predicate AwardedOn(dates: map<string, Day>, uid: string, today: Day) {
    uid in dates && dates[uid] == today
  }

  /** The point for submitting a riddle: `scores.get(uid, 0) + 1`, recorded together
      with the date. The addition only works on a missing or legacy entry. */
  function DailyAward(scores: map<string, Score>, dates: map<string, Day>, uid: string, today: Day)
    : (r: (map<string, Score>, map<string, Day>))
    requires AwardedOn(dates, uid, today) || uid !in scores || scores[uid].Legacy?
    ensures AwardedOn(r.1, uid, today)
    ensures AwardedOn(dates, uid, today) ==> r == (scores, dates)
    ensures !AwardedOn(dates, uid, today) ==>
      && UserTotal(r.0, uid) == UserTotal(scores, uid) + 1
      && r.0.Keys == scores.Keys + {uid}
      && r.1.Keys == dates.Keys + {uid}
      && r.0[uid].Legacy?
    ensures forall v :: v != uid && v in scores ==> v in r.0 && r.0[v] == scores[v]
    ensures forall v :: v != uid && v in dates ==> v in r.1 && r.1[v] == dates[v]
    ensures NonNegative(scores) ==> NonNegative(r.0)
  {
    if AwardedOn(dates, uid, today) then (scores, dates)
    else
      var before := if uid in scores then scores[uid].points else 0;
      (scores[uid := Legacy(before + 1)], dates[uid := today])
  }

  /** Any number of submissions by one user on one day earn one point: a second
      award on the same day changes nothing. */
  lemma DailyAwardOncePerDay(scores: map<string, Score>, dates: map<string, Day>, uid: string, today: Day)
    requires uid !in scores || scores[uid].Legacy?
    ensures var once := DailyAward(scores, dates, uid, today);
      DailyAward(once.0, once.1, uid, today) == once
  {
  }

  /** On a later day the user can earn the submission point again. */
  lemma DailyAwardNextDay(scores: map<string, Score>, dates: map<string, Day>, uid: string, today: Day, later: Day)
    requires uid !in scores || scores[uid].Legacy?
    requires later != today
    ensures var once := DailyAward(scores, dates, uid, today);
      var twice := DailyAward(once.0, once.1, uid, later);
      UserTotal(twice.0, uid) == UserTotal(once.0, uid) + 1
  {
  }

  // ---------------------------------------------------------------------------
  // Correct answers and exhausted guesses

  /** Whether a correct answer to riddle `id` earns the user a point: always for a legacy
      entry, and for a record (created if missing) only when `id` is not yet credited. */
  predicate Creditable(scores: map<string, Score>, uid: string, id: Key) {
    uid !in scores || scores[uid].Legacy? || id !in scores[uid].answered
  }

  /** The ledger after a correct answer to riddle `id`. A record gains one contribution
      point (not an insight point) and remembers `id`; a legacy entry gains one point. */
  function CreditAnswer(scores: map<string, Score>, uid: string, id: Key): (r: map<string, Score>)
    ensures !Creditable(scores, uid, id) ==> r == scores
    ensures Creditable(scores, uid, id) ==>
      && r.Keys == scores.Keys + {uid}
      && UserTotal(r, uid) == UserTotal(scores, uid) + 1
      && (uid in scores ==> r[uid].Legacy? == scores[uid].Legacy?)
    ensures forall v :: v != uid && v in scores ==> v in r && r[v] == scores[v]
    ensures uid in r && r[uid].Record? ==>
      && id in r[uid].answered
      && r[uid].insight == (if uid in scores then scores[uid].insight else 0)
    ensures Creditable(scores, uid, id) && (uid !in scores || scores[uid].Record?) ==>
      var before := if uid in scores then scores[uid] else FreshRecord;
      && r[uid].Record?
      && r[uid].answered == before.answered + [id]
      && r[uid].contribution == before.contribution + 1
    ensures uid in scores && scores[uid].Legacy? ==> r[uid] == Legacy(scores[uid].points + 1)
    ensures NonNegative(scores) ==> NonNegative(r)
  {
    if !Creditable(scores, uid, id) then scores
    else if uid in scores && scores[uid].Legacy? then
      scores[uid := Legacy(scores[uid].points + 1)]
    else
      var sc := if uid in scores then scores[uid] else FreshRecord;
      scores[uid := Record(sc.insight, sc.contribution + 1, sc.answered + [id])]
  }

  /** For a record the credit is idempotent: answering the same riddle correctly again
      (after a repost) earns nothing more. */
  lemma CreditIdempotentForRecords(scores: map<string, Score>, uid: string, id: Key)
    requires uid !in scores || scores[uid].Record?
    ensures CreditAnswer(CreditAnswer(scores, uid, id), uid, id) == CreditAnswer(scores, uid, id)
  {
  }

  /** A legacy entry keeps no history, so every credited correct answer adds a point,
      even for a riddle answered before. */
  lemma CreditRepeatsForLegacy(scores: map<string, Score>, uid: string, id: Key)
    requires uid in scores && scores[uid].Legacy?
    ensures UserTotal(CreditAnswer(CreditAnswer(scores, uid, id), uid, id), uid) == UserTotal(scores, uid) + 2
  {
  }

  predicate NoDuplicates(ks: seq<Key>) {
    forall i, j :: 0 <= i < j < |ks| ==> ks[i] != ks[j]
  }

  /** The credited-riddle list of a record never holds the same riddle twice. */
  lemma CreditKeepsAnsweredDistinct(scores: map<string, Score>, uid: string, id: Key)
    requires uid in scores && scores[uid].Record? ==> NoDuplicates(scores[uid].answered)
    ensures var r := CreditAnswer(scores, uid, id);
      r[uid].Record? ==> NoDuplicates(r[uid].answered)
  {
  }

  /** One entry after the penalty: a record loses a contribution point and a legacy entry
      a point, neither going below zero; nothing else in the entry changes. */
  function Deducted(sc: Score): (r: Score)
    ensures r.Record? == sc.Record?
    ensures sc.Record? ==> r == sc.(contribution := Max(0, sc.contribution - 1))
    ensures sc.Legacy? ==> r == Legacy(Max(0, sc.points - 1))
    ensures NonNegativeScore(sc) ==> NonNegativeScore(r)
  {
    match sc
    case Record(i, c, a) => Record(i, Max(0, c - 1), a)
    case Legacy(p) => Legacy(Max(0, p - 1))
  }

  /** The one-point penalty for running out of guesses, clamped at zero: a record loses a
      contribution point (a missing user gets a zero record), a legacy entry a point. */
  function Deduct(scores: map<string, Score>, uid: string): (r: map<string, Score>)
    ensures r.Keys == scores.Keys + {uid}
    ensures forall v :: v != uid && v in scores ==> r[v] == scores[v]
    ensures uid in scores ==> r[uid] == Deducted(scores[uid])
    ensures uid !in scores ==> r[uid] == FreshRecord
    ensures NonNegative(scores) ==> NonNegative(r)
    ensures NonNegative(scores) ==>
      UserTotal(scores, uid) - 1 <= UserTotal(r, uid) <= UserTotal(scores, uid)
  {
    // A missing user starts from a zero record, which the clamp leaves as it is.
    if uid in scores then scores[uid := Deducted(scores[uid])] else scores[uid := FreshRecord]
  }

  // ---------------------------------------------------------------------------
  // Administrative adjustment

  datatype PointKind = Insight | Contribution
  datatype AdjustAction = Add | Remove
  datatype AdjustError =
    | UnknownPointType   // neither "insight" nor "contribution"
    | BadQuantity        // not an integer, or not positive
    | LegacyEntry        // the entry is a bare integer: reading a field of it fails

  /** The point type typed by the admin, read case-insensitively. */
  function PointKindOf(text: string): (k: Option<PointKind>)
    ensures k == Some(Insight) <==> Lower(text) == "insight"
    ensures k == Some(Contribution) <==> Lower(text) == "contribution"
  {
    var t := Lower(text);
    if t == "insight" then Some(Insight)
    else if t == "contribution" then Some(Contribution)
    else None
  }

  function Field(s: Score, k: PointKind): int
    requires s.Record?
  {
    if k == Insight then s.insight else s.contribution
  }

  function WithField(s: Score, k: PointKind, v: int): (r: Score)
    requires s.Record?
    ensures r.Record? && Field(r, k) == v && r.answered == s.answered
    ensures forall o :: o != k ==> Field(r, o) == Field(s, o)
  {
    if k == Insight then s.(insight := v) else s.(contribution := v)
  }

  /** The adjusted record: the chosen field raised by `q`, or lowered by `q` but not below
      zero; every other part of the record kept. */
  function AdjustedRecord(before: Score, k: PointKind, q: int, action: AdjustAction): (r: Score)
    requires before.Record? && q > 0
    ensures r.Record? && r.answered == before.answered
    ensures Field(r, k) == (if action == Add then Field(before, k) + q else Max(0, Field(before, k) - q))
    ensures forall o :: o != k ==> Field(r, o) == Field(before, o)
    ensures NonNegativeScore(before) ==> NonNegativeScore(r)
  {
    var cur := Field(before, k);
    WithField(before, k, if action == Add then cur + q else Max(0, cur - q))
  }

  /** `/addpoints` and `/removepoints`: validate the point type, then the quantity, then
      add to the field or take from it clamping at zero; a missing user starts from zeros. */
  function Adjust(scores: map<string, Score>, uid: string, pointType: string, quantity: string,
                  action: AdjustAction): (r: Result<map<string, Score>, AdjustError>)
    ensures PointKindOf(pointType).None? ==> r == Err(UnknownPointType)
    ensures PointKindOf(pointType).Some? && (ParseInt(quantity).None? || ParseInt(quantity).value <= 0) ==>
      r == Err(BadQuantity)
    ensures PointKindOf(pointType).Some? && ParseInt(quantity).Some? && ParseInt(quantity).value > 0 ==>
      (r.Ok? <==> !(uid in scores && scores[uid].Legacy?))
    ensures r == Err(LegacyEntry) <==>
      && PointKindOf(pointType).Some? && ParseInt(quantity).Some? && ParseInt(quantity).value > 0
      && uid in scores && scores[uid].Legacy?
    ensures r.Ok? ==>
      var k := PointKindOf(pointType).value;
      var q := ParseInt(quantity).value;
      var before := if uid in scores then scores[uid] else FreshRecord;
      && q > 0
      && before.Record?
      && r.value == scores[uid := AdjustedRecord(before, k, q, action)]
    ensures r.Ok? && NonNegative(scores) ==> NonNegative(r.value)
  {
    match PointKindOf(pointType)
    case None => Err(UnknownPointType)
    case Some(k) =>
      match ParseInt(quantity)
      case None => Err(BadQuantity)
      case Some(q) =>
        if q <= 0 then Err(BadQuantity)
        else
          var before := if uid in scores then scores[uid] else FreshRecord;
          if before.Legacy? then Err(LegacyEntry)
          else Ok(scores[uid := AdjustedRecord(before, k, q, action)])
  }

  /** Removing the quantity just added restores a record exactly: the clamp never bites
      on a non-negative field. */
  lemma {:induction false} AddThenRemoveRestores(scores: map<string, Score>, uid: string, pointType: string, quantity: string)
    requires uid in scores && scores[uid].Record? && NonNegativeScore(scores[uid])
    requires PointKindOf(pointType).Some?
    requires ParseInt(quantity).Some? && ParseInt(quantity).value > 0
    ensures Adjust(scores, uid, pointType, quantity, Add).Ok?
    ensures Adjust(Adjust(scores, uid, pointType, quantity, Add).value, uid, pointType, quantity, Remove) == Ok(scores)
  {
    var k, q := PointKindOf(pointType).value, ParseInt(quantity).value;
    var b := scores[uid];
    var a := AdjustedRecord(b, k, q, Add);
    AddThenRemoveRecord(b, k, q);
    var added := Adjust(scores, uid, pointType, quantity, Add).value;
    assert added == scores[uid := a];
    assert added[uid := AdjustedRecord(a, k, q, Remove)] == scores;
  }

  /** The record-level step: removing `q` after adding `q` gives the record back. */
  lemma AddThenRemoveRecord(b: Score, k: PointKind, q: int)
    requires b.Record? && NonNegativeScore(b) && q > 0
    ensures AdjustedRecord(AdjustedRecord(b, k, q, Add), k, q, Remove) == b
  {
    var r := AdjustedRecord(AdjustedRecord(b, k, q, Add), k, q, Remove);
    assert Field(r, Insight) == Field(b, Insight) && Field(r, Contribution) == Field(b, Contribution);
    assert r.insight == Field(r, Insight) && b.insight == Field(b, Insight);
    assert r.contribution == Field(r, Contribution) && b.contribution == Field(b, Contribution);
  }

  /** Removing at least as many points as a field holds leaves it at zero, never below. */
  lemma RemoveClampsAtZero(scores: map<string, Score>, uid: string, pointType: string, quantity: string)
    requires uid in scores && scores[uid].Record?
    requires PointKindOf(pointType).Some?
    requires ParseInt(quantity).Some? && ParseInt(quantity).value >= Field(scores[uid], PointKindOf(pointType).value)
    requires ParseInt(quantity).value > 0
    ensures Adjust(scores, uid, pointType, quantity, Remove).Ok?
    ensures Field(Adjust(scores, uid, pointType, quantity, Remove).value[uid], PointKindOf(pointType).value) == 0
  {
    var k, q := PointKindOf(pointType).value, ParseInt(quantity).value;
    var r := Adjust(scores, uid, pointType, quantity, Remove);
    assert r.Ok? && r.value[uid] == AdjustedRecord(scores[uid], k, q, Remove);
  }

  // ---------------------------------------------------------------------------
  // One point per riddle for a record, however the ledger changes in between

  /** The record of `uid` lists riddle `id` as credited. */
  predicate Credited(scores: map<string, Score>, uid: string, id: Key) {
    uid in scores && scores[uid].Record? && id in scores[uid].answered
  }

  /** The user has no entry yet or keeps a record, so answers are remembered. */
  predicate RecordOrAbsent(scores: map<string, Score>, uid: string) {
    uid !in scores || scores[uid].Record?
  }

  /** The changes the ledger goes through while users answer and admins adjust. */
  datatype LedgerOp =
    | Credit(user: string, riddle: Key)
    | Penalty(user: string)
    | AdminAdjust(user: string, pointType: string, quantity: string, action: AdjustAction)

  /** The ledger after one change; a rejected adjustment leaves it as it was. */
  function ApplyOp(scores: map<string, Score>, op: LedgerOp): map<string, Score> {
    match op
    case Credit(u, id) => CreditAnswer(scores, u, id)
    case Penalty(u) => Deduct(scores, u)
    case AdminAdjust(u, t, q, a) =>
      var r := Adjust(scores, u, t, q, a);
      if r.Ok? then r.value else scores
  }

  /** The ledger after the changes `ops`, in order. */
  function ApplyOps(scores: map<string, Score>, ops: seq<LedgerOp>): map<string, Score>
    decreases |ops|
  {
    if ops == [] then scores else ApplyOps(ApplyOp(scores, ops[0]), ops[1..])
  }

  /** How many of the credits in `ops` for `uid` and riddle `id` earn a point. */
  function PointsFor(scores: map<string, Score>, ops: seq<LedgerOp>, uid: string, id: Key): nat
    decreases |ops|
  {
    if ops == [] then 0
    else
      (if ops[0] == Credit(uid, id) && Creditable(scores, uid, id) then 1 else 0)
      + PointsFor(ApplyOp(scores, ops[0]), ops[1..], uid, id)
  }

  /** No change of the ledger turns a record back into a legacy entry, and none makes a
      record forget a credited riddle; crediting that riddle again changes nothing. */
  lemma CreditedStaysCredited(scores: map<string, Score>, op: LedgerOp, uid: string, id: Key)
    requires RecordOrAbsent(scores, uid)
    ensures RecordOrAbsent(ApplyOp(scores, op), uid)
    ensures Credited(scores, uid, id) ==> Credited(ApplyOp(scores, op), uid, id)
    ensures Credited(scores, uid, id) ==> CreditAnswer(scores, uid, id) == scores
    ensures op == Credit(uid, id) ==> Credited(ApplyOp(scores, op), uid, id)
  {
    if op.Credit? {
      CreditKeepsRecord(scores, op, uid, id);
    } else if op.Penalty? {
      PenaltyKeepsRecord(scores, op, uid, id);
    } else {
      AdjustKeepsRecord(scores, op, uid, id);
    }
  }

  lemma CreditKeepsRecord(scores: map<string, Score>, op: LedgerOp, uid: string, id: Key)
    requires op.Credit? && RecordOrAbsent(scores, uid)
    ensures RecordOrAbsent(ApplyOp(scores, op), uid)
    ensures Credited(scores, uid, id) ==> Credited(ApplyOp(scores, op), uid, id)
    ensures op == Credit(uid, id) ==> Credited(ApplyOp(scores, op), uid, id)
  {
    var r := CreditAnswer(scores, op.user, op.riddle);
    assert ApplyOp(scores, op) == r;
    if op.user == uid && Creditable(scores, uid, op.riddle) {
      var before := if uid in scores then scores[uid] else FreshRecord;
      assert r[uid].answered == before.answered + [op.riddle];
    }
  }

  lemma PenaltyKeepsRecord(scores: map<string, Score>, op: LedgerOp, uid: string, id: Key)
    requires op.Penalty? && RecordOrAbsent(scores, uid)
    ensures RecordOrAbsent(ApplyOp(scores, op), uid)
    ensures Credited(scores, uid, id) ==> Credited(ApplyOp(scores, op), uid, id)
  {
    assert op == Penalty(op.user);
  }

  lemma AdjustKeepsRecord(scores: map<string, Score>, op: LedgerOp, uid: string, id: Key)
    requires op.AdminAdjust? && RecordOrAbsent(scores, uid)
    ensures RecordOrAbsent(ApplyOp(scores, op), uid)
    ensures Credited(scores, uid, id) ==> Credited(ApplyOp(scores, op), uid, id)
  {
    var r := Adjust(scores, op.user, op.pointType, op.quantity, op.action);
    if r.Ok? && op.user == uid {
      var before := if uid in scores then scores[uid] else FreshRecord;
      assert r.value[uid] == AdjustedRecord(before, PointKindOf(op.pointType).value, ParseInt(op.quantity).value, op.action);
    }
  }

  /** A user with a record, or without an entry, earns at most one point for a riddle,
      whatever credits, penalties and adjustments happen in between; none at all once
      the riddle is already credited. */
  lemma {:induction false} RecordEarnsOncePerRiddle(scores: map<string, Score>, ops: seq<LedgerOp>, uid: string, id: Key)
    requires RecordOrAbsent(scores, uid)
    ensures PointsFor(scores, ops, uid, id) <= 1
    ensures Credited(scores, uid, id) ==> PointsFor(scores, ops, uid, id) == 0
    ensures RecordOrAbsent(ApplyOps(scores, ops), uid)
    ensures Credited(scores, uid, id) || Credit(uid, id) in ops ==> Credited(ApplyOps(scores, ops), uid, id)
    decreases |ops|
  {
    if ops != [] {
      var next := ApplyOp(scores, ops[0]);
      CreditedStaysCredited(scores, ops[0], uid, id);
      RecordEarnsOncePerRiddle(next, ops[1..], uid, id);
      assert ops == [ops[0]] + ops[1..];
    }
  }

  // ---------------------------------------------------------------------------
  // Rank titles

  datatype Rank =
    | MasterSushiChef
    | StreakSamurai(streak: int)
    | SushiNewbie
    | MakiNovice
    | SashimiSkilled
    | BrainyBotan
    | SushiEinstein

  /** `max(scores.values())` only succeeds when at most one entry is present or all are
      legacy integers; comparing a record with anything raises `TypeError`. */
  predicate RankDefined(scores: map<string, Score>) {
    |scores| <= 1 || forall u :: u in scores ==> scores[u].Legacy?
  }

  lemma HasElement(s: set<int>)
    requires s != {}
    ensures exists y :: y in s
  {
    if forall y :: y !in s {
      assert false;
    }
  }

  /** The largest element of a finite non-empty set. */
  ghost function MaxOf(s: set<int>): (m: int)
    requires s != {}
    ensures m in s
    ensures forall y :: y in s ==> y <= m
    decreases |s|
  {
    HasElement(s);
    var e :| e in s;
    var rest := s - {e};
    assert forall y :: y in s ==> y == e || y in rest;
    if rest == {} then e
    else
      var m' := MaxOf(rest);
      if e > m' then e else m'
  }

  /** What `max(scores.values())` compares equal to an integer: the largest legacy value,
      or nothing when the table is empty or its single entry is a record. */
  ghost function TopScore(scores: map<string, Score>): (t: Option<int>)
    requires RankDefined(scores)
    ensures t.Some? <==> scores != map[] && forall u :: u in scores ==> scores[u].Legacy?
  {
    if scores == map[] then None
    else if exists u :: u in scores && scores[u].Record? then None
    else
      var w :| w in scores;
      var values := set u | u in scores :: scores[u].points;
      assert scores[w].points in values;
      Some(MaxOf(values))
  }

  /** `score` is the highest value in the table and every entry is a legacy integer. */
  ghost predicate IsTopScore(scores: map<string, Score>, score: int) {
    && (forall u :: u in scores ==> scores[u].Legacy? && scores[u].points <= score)
    && (exists u :: u in scores && scores[u] == Legacy(score))
  }

  /** The threshold table; every integer falls in exactly one tier. */
  function Tier(score: int): (r: Rank)
    ensures r in {SushiNewbie, MakiNovice, SashimiSkilled, BrainyBotan, SushiEinstein}
  {
    if score <= 5 then SushiNewbie
    else if score <= 15 then MakiNovice
    else if score <= 25 then SashimiSkilled
    else if score <= 50 then BrainyBotan
    else SushiEinstein
  }

  function TierLevel(r: Rank): nat {
    match r
    case SushiNewbie => 0
    case MakiNovice => 1
    case SashimiSkilled => 2
    case BrainyBotan => 3
    case SushiEinstein => 4
    case _ => 5
  }

  /** A higher score never gives a lower tier. */
  lemma TierMonotone(a: int, b: int)
    requires a <= b
    ensures TierLevel(Tier(a)) <= TierLevel(Tier(b))
  {
  }

  /** `get_rank`: the top-scorer title first, then the streak title, then the tier. */
  ghost function RankOf(scores: map<string, Score>, score: int, streak: int): (r: Rank)
    requires RankDefined(scores)
    ensures r == MasterSushiChef <==> score > 0 && IsTopScore(scores, score)
    ensures r.StreakSamurai? <==> !(score > 0 && IsTopScore(scores, score)) && streak >= 3
    ensures r.StreakSamurai? ==> r.streak == streak
    ensures !(score > 0 && IsTopScore(scores, score)) && streak < 3 ==> r == Tier(score)
  {
    TopScoreIsMax(scores, score);
    if TopScore(scores) == Some(score) && score > 0 then MasterSushiChef
    else if streak >= 3 then StreakSamurai(streak)
    else Tier(score)
  }

  /** The computed maximum matches the score exactly when that score is the top one. */
  lemma TopScoreIsMax(scores: map<string, Score>, score: int)
    requires RankDefined(scores)
    ensures TopScore(scores) == Some(score) <==> IsTopScore(scores, score)
  {
    if scores != map[] && forall u :: u in scores ==> scores[u].Legacy? {
      var vals := set u | u in scores :: scores[u].points;
      var w0 :| w0 in scores;
      assert scores[w0].points in vals;
      var m := MaxOf(vals);
      assert TopScore(scores) == Some(m);
      forall u | u in scores
        ensures scores[u].points <= m
      {
        assert scores[u].points in vals;
      }
      var w :| w in scores && scores[w].points == m;
      assert scores[w] == Legacy(m);
      assert IsTopScore(scores, m);
      if IsTopScore(scores, score) {
        var u :| u in scores && scores[u] == Legacy(score);
        assert score <= m && m <= score;
      }
    } else if scores != map[] {
      var u :| u in scores && scores[u].Record?;
    }
  }

  /** Ties at the top all get the top-scorer title. */
  lemma TiedTopScorersShareTitle(scores: map<string, Score>, u: string, v: string, streakU: int, streakV: int)
    requires RankDefined(scores)
    requires u in scores && v in scores && scores[u] == scores[v]
    requires IsTopScore(scores, ScoreValue(scores[u])) && ScoreValue(scores[u]) > 0
    ensures RankOf(scores, ScoreValue(scores[u]), streakU) == MasterSushiChef
    ensures RankOf(scores, ScoreValue(scores[v]), streakV) == MasterSushiChef
  {
  }
}

/**
 * The riddle queue of the bot: the records kept in `submitted_questions.json`,
 * their identifiers, the duplicate test applied on submission, the pool that the
 * next riddle is drawn from, and the scans the handlers perform over the queue.
 */
module Riddles {
  import opened Wrappers
  import opened Text

  /** A riddle identifier as it appears in the JSON file: normally text such as "12",
      but a hand-edited file may hold a JSON number instead. */
  datatype Key = TextKey(text: string) | NumberKey(number: int)

  /** One queued riddle; every field but the question may be missing from the file. */
  datatype Riddle = Riddle(
    id: Option<Key>,
    question: string,
    answer: Option<string>,
    submitter: Option<string>)

  /** The numeric value an identifier contributes to the start-up maximum: only an
      identifier that is truthy and whose `str` is all digits counts. */
  function NumericId(k: Key): (n: Option<nat>)
    ensures n.Some? && k.TextKey? ==> IsDigitString(k.text) && n.value == DigitsValue(k.text)
    ensures n.Some? && k.NumberKey? ==> n.value == k.number > 0
    ensures n.None? ==> (k.TextKey? && !IsDigitString(k.text)) || (k.NumberKey? && k.number <= 0)
  {
    match k
    case TextKey(s) => if IsDigitString(s) then Some(DigitsValue(s)) else None
    case NumberKey(n) => if n > 0 then Some(n) else None
  }

  /** The identifier the bot hands out for counter value `n`: the text `str(n)`. */
  function IssuedKey(n: nat): Key {
    TextKey(NatToString(n))
  }

  /** No identifier in `keys` has a numeric value above `m`. */
  ghost predicate KeysAtMost(keys: set<Key>, m: nat) {
    forall k :: k in keys && NumericId(k).Some? ==> NumericId(k).value <= m
  }

  /** The identifiers present in the queue. */
  function KeysOf(qs: seq<Riddle>): (keys: set<Key>)
    ensures forall i :: 0 <= i < |qs| && qs[i].id.Some? ==> qs[i].id.value in keys
    ensures forall k :: k in keys ==> exists i :: 0 <= i < |qs| && qs[i].id == Some(k)
  {
    set i | 0 <= i < |qs| && qs[i].id.Some? :: qs[i].id.value
  }

  /** The identifier issued after a counter that bounds every numeric identifier in
      `keys` is not among them: the counter's next value is larger than all of them. */
  lemma IssuedKeyIsFresh(keys: set<Key>, m: nat)
    requires KeysAtMost(keys, m)
    ensures IssuedKey(m + 1) !in keys
    ensures NumericId(IssuedKey(m + 1)) == Some(m + 1)
  {
    DigitsRoundTrip(m + 1);
  }

  /** Start-up scan of the loaded queue for the largest numeric identifier, 0 when
      there is none. */
  method InitialMaxId(qs: seq<Riddle>) returns (m: nat)
    ensures KeysAtMost(KeysOf(qs), m)
    ensures m == 0 || exists i :: 0 <= i < |qs| && qs[i].id.Some? && NumericId(qs[i].id.value) == Some(m)
  {
    m := 0;
    var i := 0;
    while i < |qs|
      invariant 0 <= i <= |qs|
      invariant forall j :: 0 <= j < i && qs[j].id.Some? && NumericId(qs[j].id.value).Some? ==>
        NumericId(qs[j].id.value).value <= m
      invariant m == 0 || exists j :: 0 <= j < i && qs[j].id.Some? && NumericId(qs[j].id.value) == Some(m)
    {
      if qs[i].id.Some? {
        var n := NumericId(qs[i].id.value);
        if n.Some? && n.value > m {
          m := n.value;
        }
      }
      i := i + 1;
    }
  }

  // ---------------------------------------------------------------------------
  // Duplicate detection on submission

  /** The question text as stored on submission: stripped, line breaks turned into spaces. */
  function SubmittedText(raw: string): string {
    NewlinesToSpaces(Strip(raw))
  }

  /** Comparison key of a new submission: stored text, lower-cased, spaces removed. */
  function NewKey(raw: string): string {
    RemoveSpaces(Lower(SubmittedText(raw)))
  }

  /** Comparison key of a queued question: stripped, lower-cased, spaces removed. */
  function StoredKey(question: string): string {
    RemoveSpaces(Lower(Strip(question)))
  }

  /** Some queued riddle has the same comparison key as the new submission. */
  predicate IsDuplicate(qs: seq<Riddle>, raw: string) {
    exists i :: 0 <= i < |qs| && StoredKey(qs[i].question) == NewKey(raw)
  }

  /** The scan over the queue that rejects a repeated riddle. */
  method FindDuplicate(qs: seq<Riddle>, raw: string) returns (dup: bool)
    ensures dup <==> exists i :: 0 <= i < |qs| && StoredKey(qs[i].question) == NewKey(raw)
  {
    var key := NewKey(raw);
    var i := 0;
    while i < |qs|
      invariant 0 <= i <= |qs|
      invariant !KeyBefore(qs, i, key)
    {
      var existing := StoredKey(qs[i].question);
      KeyBeforeStep(qs, i, key);
      if existing == key {
        return true;
      }
      i := i + 1;
    }
    return false;
  }

  /** One of the first `n` queued riddles has comparison key `key`. */
  predicate KeyBefore(qs: seq<Riddle>, n: int, key: string)
    requires 0 <= n <= |qs|
  {
    exists j :: 0 <= j < n && StoredKey(qs[j].question) == key
  }

  lemma KeyBeforeStep(qs: seq<Riddle>, i: int, key: string)
    requires 0 <= i < |qs|
    ensures KeyBefore(qs, i + 1, key) <==> KeyBefore(qs, i, key) || StoredKey(qs[i].question) == key
  {
    if StoredKey(qs[i].question) == key {
      assert 0 <= i < i + 1 && StoredKey(qs[i].question) == key;
    }
  }

  /** A stored submission's key is the key it was submitted under, so submitting the
      same text again is always caught as a duplicate. */
  lemma {:induction false} StoredKeyOfSubmission(raw: string)
    ensures StoredKey(SubmittedText(raw)) == NewKey(raw)
  {
    NewlinesToSpacesTrimmed(Strip(raw));
    StripTrimmed(SubmittedText(raw));
  }

  /** Once a text is queued, every later submission of it is a duplicate. */
  lemma ResubmissionIsDuplicate(qs: seq<Riddle>, r: Riddle, raw: string)
    requires r.question == SubmittedText(raw)
    ensures IsDuplicate(qs + [r], raw)
  {
    StoredKeyOfSubmission(raw);
    var i := |qs|;
    assert (qs + [r])[i] == r;
    assert StoredKey((qs + [r])[i].question) == NewKey(raw);
  }

  // ---------------------------------------------------------------------------
  // Removal by identifier

  /** `i` is the first position of the queue whose identifier equals `key`. */
  predicate IsFirstWithId(qs: seq<Riddle>, key: Key, i: int) {
    0 <= i < |qs| && qs[i].id == Some(key) &&
    forall j :: 0 <= j < i ==> qs[j].id != Some(key)
  }

  /** The first match is unique. */
  lemma FirstWithIdUnique(qs: seq<Riddle>, key: Key, i: int, j: int)
    requires IsFirstWithId(qs, key, i) && IsFirstWithId(qs, key, j)
    ensures i == j
  {
  }

  /** The search `next(i for i, q in enumerate(queue) if q.get("id") == qid)`. */
  method FindRiddle(qs: seq<Riddle>, key: Key) returns (idx: Option<nat>)
    ensures idx.None? <==> forall i :: 0 <= i < |qs| ==> qs[i].id != Some(key)
    ensures idx.Some? ==> IsFirstWithId(qs, key, idx.value)
  {
    var i := 0;
    while i < |qs|
      invariant 0 <= i <= |qs|
      invariant forall j :: 0 <= j < i ==> qs[j].id != Some(key)
    {
      if qs[i].id == Some(key) {
        return Some(i);
      }
      i := i + 1;
    }
    return None;
  }

  /** `list.pop(i)` as a value: the queue without position `i`. */
  function RemoveAt(qs: seq<Riddle>, i: nat): (r: seq<Riddle>)
    requires i < |qs|
    ensures |r| == |qs| - 1
    ensures multiset(r) + multiset{qs[i]} == multiset(qs)
    ensures forall j :: 0 <= j < i ==> r[j] == qs[j]
    ensures forall j :: i <= j < |r| ==> r[j] == qs[j + 1]
  {
    assert qs == qs[..i] + [qs[i]] + qs[i + 1..];
    qs[..i] + qs[i + 1..]
  }

  /** Appending a record adds its identifier, if any, to the queue's identifiers. */
  lemma KeysOfAppend(qs: seq<Riddle>, r: Riddle)
    ensures KeysOf(qs + [r]) == KeysOf(qs) + (if r.id.Some? then {r.id.value} else {})
  {
    var s := qs + [r];
    assert forall i :: 0 <= i < |qs| ==> s[i] == qs[i];
    assert s[|qs|] == r;
  }

  /** Queuing a record under the identifier issued after counter `m` keeps the counter
      an upper bound of every identifier seen, now including the new one. */
  lemma AppendIssued(qs: seq<Riddle>, issued: set<Key>, m: nat, r: Riddle)
    requires KeysOf(qs) <= issued && KeysAtMost(issued, m)
    requires r.id == Some(IssuedKey(m + 1))
    ensures IssuedKey(m + 1) !in issued
    ensures KeysOf(qs + [r]) <= issued + {IssuedKey(m + 1)}
    ensures KeysAtMost(issued + {IssuedKey(m + 1)}, m + 1)
  {
    IssuedKeyIsFresh(issued, m);
    KeysOfAppend(qs, r);
  }

  /** Removing a record introduces no identifier. */
  lemma RemoveAtKeys(qs: seq<Riddle>, i: nat)
    requires i < |qs|
    ensures KeysOf(RemoveAt(qs, i)) <= KeysOf(qs)
  {
    var r := RemoveAt(qs, i);
    forall k | k in KeysOf(r)
      ensures k in KeysOf(qs)
    {
      var j :| 0 <= j < |r| && r[j].id == Some(k);
      if j < i {
        assert qs[j] == r[j];
      } else {
        assert qs[j + 1] == r[j];
      }
    }
  }

  // ---------------------------------------------------------------------------
  // The unused pool and the low-queue warning

  /** A record still counts as new: its identifier (possibly missing) is not used. */
  predicate Unused(q: Riddle, used: set<Key>) {
    q.id.None? || q.id.value !in used
  }

  /** `count_unused_questions`: records whose identifier is not in the used set,
      records without identifier included. */
  function CountUnused(qs: seq<Riddle>, used: set<Key>): (n: nat)
    ensures n == |UnusedPositions(qs, used)|
    ensures n <= |qs|
    ensures n == |qs| <==> forall i :: 0 <= i < |qs| ==> Unused(qs[i], used)
    ensures n == 0 <==> forall i :: 0 <= i < |qs| ==> !Unused(qs[i], used)
  {
    if qs == [] then
      assert UnusedPositions(qs, used) == {};
      0
    else
      var rest := CountUnused(qs[1..], used);
      assert forall i :: 1 <= i < |qs| ==> qs[i] == qs[1..][i - 1];
      UnusedPositionsCons(qs, used);
      (if Unused(qs[0], used) then 1 else 0) + rest
  }

  /** The positions of the queue holding a record that still counts as new. */
  ghost function UnusedPositions(qs: seq<Riddle>, used: set<Key>): set<int> {
    set i | 0 <= i < |qs| && Unused(qs[i], used)
  }

  /** Every position of `s`, moved one further. */
  ghost function Shifted(s: set<int>): set<int> {
    set i | i in s :: i + 1
  }

  lemma {:induction false} ShiftedSize(s: set<int>)
    ensures |Shifted(s)| == |s|
    decreases |s|
  {
    if s != {} {
      if forall y :: y !in s {
        assert false;
      }
      var x :| x in s;
      ShiftedSize(s - {x});
      forall i
        ensures i in Shifted(s) <==> i in Shifted(s - {x}) + {x + 1}
      {
        assert i in Shifted(s) <==> i - 1 in s;
        assert i in Shifted(s - {x}) <==> i - 1 in s - {x};
      }
      assert Shifted(s) == Shifted(s - {x}) + {x + 1};
      assert x + 1 !in Shifted(s - {x});
    } else {
      assert Shifted(s) == {};
    }
  }

  /** The unused positions of a queue: the head if it is unused, and those of the tail
      moved one further. */
  lemma UnusedPositionsCons(qs: seq<Riddle>, used: set<Key>)
    requires qs != []
    ensures |UnusedPositions(qs, used)| == (if Unused(qs[0], used) then 1 else 0) + |UnusedPositions(qs[1..], used)|
  {
    var tail := UnusedPositions(qs[1..], used);
    var head: set<int> := if Unused(qs[0], used) then {0} else {};
    forall i
      ensures i in UnusedPositions(qs, used) <==> i in head + Shifted(tail)
    {
      if 1 <= i < |qs| {
        assert qs[i] == qs[1..][i - 1];
        assert i in Shifted(tail) <==> i - 1 in tail;
      } else if i != 0 {
        assert i !in Shifted(tail);
      }
    }
    assert UnusedPositions(qs, used) == head + Shifted(tail);
    ShiftedSize(tail);
    assert 0 !in Shifted(tail);
  }

  /** The "fewer than 5 new riddles remain" warning appended to a posted riddle. */
  predicate LowOnRiddles(qs: seq<Riddle>, used: set<Key>): (low: bool)
    ensures low <==> |UnusedPositions(qs, used)| < 5
  {
    CountUnused(qs, used) < 5
  }

  /** Marking the identifier of a still-unused record as used lowers the unused count
      by at least one, so repeated picks eventually raise the low-queue warning. */
  lemma {:induction false} MarkingUsedLowersCount(qs: seq<Riddle>, used: set<Key>, i: int)
    requires 0 <= i < |qs| && qs[i].id.Some? && qs[i].id.value !in used
    ensures CountUnused(qs, used + {qs[i].id.value}) < CountUnused(qs, used)
  {
    var k := qs[i].id.value;
    if i > 0 {
      MarkingUsedLowersCount(qs[1..], used, i - 1);
    }
    MarkingUsedNeverRaisesCount(qs[1..], used, k);
  }

  lemma {:induction false} MarkingUsedNeverRaisesCount(qs: seq<Riddle>, used: set<Key>, k: Key)
    ensures CountUnused(qs, used + {k}) <= CountUnused(qs, used)
  {
    if qs != [] {
      MarkingUsedNeverRaisesCount(qs[1..], used, k);
    }
  }

  /** The records the next riddle is drawn from: unused and with an identifier,
      in queue order (the comprehension at the start of `pick_next_riddle`). */
  function Pool(qs: seq<Riddle>, used: set<Key>): (r: seq<Riddle>)
    ensures |r| <= |qs|
    ensures forall q :: q in r <==> q in qs && q.id.Some? && q.id.value !in used
  {
    if qs == [] then []
    else
      var rest := Pool(qs[1..], used);
      assert forall q :: q in qs <==> q == qs[0] || q in qs[1..];
      if qs[0].id.Some? && qs[0].id.value !in used then [qs[0]] + rest else rest
  }

  /** Every record in the pool is one of those counted as unused. */
  lemma {:induction false} PoolWithinUnusedCount(qs: seq<Riddle>, used: set<Key>)
    ensures |Pool(qs, used)| <= CountUnused(qs, used)
  {
    if qs != [] {
      PoolWithinUnusedCount(qs[1..], used);
    }
  }
}

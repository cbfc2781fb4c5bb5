/**
 * The periodic sweep over quizzes in progress: every scanned session whose
 * question time (plus a grace period) has run out is advanced to its next
 * question, inside a guarded update that re-reads the session and gives up
 * when the session has moved on since the scan.
 */
module TimeoutSweep {
  import opened Store

  /** Seconds of grace added to the time allowed per question. */
  const GraceSeconds: int := 2
  const MillisPerSecond: int := 1000

  /** A scanned session is due: it has a (truthy) timestamp for its current
      question, it is timed, and more than its time plus the grace period
      has gone by. `now` and the timestamp are in milliseconds; comparing
      `(now - last) / 1000 > t + 2` over the reals is the same as comparing
      `now - last > (t + 2) * 1000`. */
  predicate Eligible(now: int, scanned: UserState) {
    && scanned.data.Quiz?
    && scanned.data.session.lastQuestionTimestamp != 0
    && scanned.data.session.timePerQuestion > 0
    && now - scanned.data.session.lastQuestionTimestamp
         > (scanned.data.session.timePerQuestion + GraceSeconds) * MillisPerSecond
  }

  /** The source's own test, `(now - last) / 1000 > t + 2` computed over
      the reals, holds exactly when Eligible does. */
  lemma EligibleInSeconds(now: int, scanned: UserState)
    requires scanned.data.Quiz?
    ensures var s := scanned.data.session;
      Eligible(now, scanned) <==>
        && s.lastQuestionTimestamp != 0
        && s.timePerQuestion > 0
        && (now - s.lastQuestionTimestamp) as real / 1000.0 > (s.timePerQuestion + GraceSeconds) as real
  {
  }

  /** The re-check inside the update: the session is still being taken and
      its timestamp is the one seen by the scan. */
  predicate StillCurrent(current: UserState, scannedTimestamp: int) {
    && current.state == TakingExam
    && current.data.Quiz?
    && current.data.session.lastQuestionTimestamp == scannedTimestamp
  }

  /** The session moved to its next question: only `currentQuestionIndex`
      changes, by one. */
  function Advanced(current: UserState): (next: UserState)
    requires current.data.Quiz?
    ensures var s := current.data.session;
      && next.state == current.state
      && next.data.Quiz?
      && next.data.session.currentQuestionIndex == s.currentQuestionIndex + 1
      && next.data.session.examId == s.examId
      && next.data.session.score == s.score
      && next.data.session.lastQuestionTimestamp == s.lastQuestionTimestamp
      && next.data.session.lastPollId == s.lastPollId
      && next.data.session.timePerQuestion == s.timePerQuestion
  {
    var session := current.data.session;
    current.(data := Quiz(session.(currentQuestionIndex := session.currentQuestionIndex + 1)))
  }

  /** The guarded update of one user's state document: nothing when the
      document is gone or has moved on, otherwise the advance. */
  function Transaction(store: map<string, UserState>, userId: string, scannedTimestamp: int): (r: map<string, UserState>)
    ensures r.Keys == store.Keys
    ensures forall id :: id in store && id != userId ==> r[id] == store[id]
  {
    if userId in store && StillCurrent(store[userId], scannedTimestamp) then
      store[userId := Advanced(store[userId])]
    else
      store
  }

  /** One scanned document: the update runs only for a due session. */
  function Visit(now: int, store: map<string, UserState>, userId: string, scanned: UserState): (r: map<string, UserState>)
    ensures r.Keys == store.Keys
    ensures forall id :: id in store && id != userId ==> r[id] == store[id]
  {
    if Eligible(now, scanned) then
      Transaction(store, userId, scanned.data.session.lastQuestionTimestamp)
    else
      store
  }

  /** The store after visiting the scanned documents in order. */
  function Sweep(now: int, scan: seq<(string, UserState)>, store: map<string, UserState>): (r: map<string, UserState>)
    ensures r.Keys == store.Keys
  {
    if scan == [] then store
    else
      var (userId, scanned) := scan[|scan| - 1];
      Visit(now, Sweep(now, scan[..|scan| - 1], store), userId, scanned)
  }

  /** The users the sweep reports as timed out, in scan order. */
  function TimedOut(now: int, scan: seq<(string, UserState)>): (ids: seq<string>)
    ensures forall k :: 0 <= k < |ids| ==> exists i :: 0 <= i < |scan| && scan[i].0 == ids[k] && Eligible(now, scan[i].1)
    ensures forall i :: 0 <= i < |scan| && Eligible(now, scan[i].1) ==> scan[i].0 in ids
  {
    if scan == [] then []
    else
      var front := TimedOut(now, scan[..|scan| - 1]);
      var (userId, scanned) := scan[|scan| - 1];
      assert forall i :: 0 <= i < |scan| - 1 ==> scan[..|scan| - 1][i] == scan[i];
      front + (if Eligible(now, scanned) then [userId] else [])
  }

  /** The report of a scan read in two parts is the report of the first
      part followed by that of the second: users are reported in scan
      order. */
  lemma {:induction false} TimedOutAppend(now: int, a: seq<(string, UserState)>, b: seq<(string, UserState)>)
    ensures TimedOut(now, a + b) == TimedOut(now, a) + TimedOut(now, b)
  {
    if b == [] {
      assert a + b == a;
    } else {
      var front := b[..|b| - 1];
      var last := b[|b| - 1];
      assert (a + b)[..|a + b| - 1] == a + front;
      assert (a + b)[|a + b| - 1] == last;
      TimedOutAppend(now, a, front);
      var tail := if Eligible(now, last.1) then [last.0] else [];
      assert TimedOut(now, a + b) == (TimedOut(now, a) + TimedOut(now, front)) + tail;
      assert TimedOut(now, b) == TimedOut(now, front) + tail;
    }
  }

  /** `checkTimedOutQuizzes()` given the clock reading `now` and the scanned
      `taking_exam` documents: each due session gets its guarded update,
      one after another, against the store as it is by then. */
  method CheckTimedOutQuizzes(now: int, scan: seq<(string, UserState)>, store: map<string, UserState>)
    returns (result: map<string, UserState>, timedOut: seq<string>)
    ensures result == Sweep(now, scan, store)
    ensures timedOut == TimedOut(now, scan)
  {
    result, timedOut := store, [];
    for i := 0 to |scan|
      invariant result == Sweep(now, scan[..i], store)
      invariant timedOut == TimedOut(now, scan[..i])
    {
      assert scan[..i + 1][..i] == scan[..i];
      var (userId, scanned) := scan[i];
      if Eligible(now, scanned) {
        timedOut := timedOut + [userId];
        if userId in result {
          var current := result[userId];
          if StillCurrent(current, scanned.data.session.lastQuestionTimestamp) {
            result := result[userId := Advanced(current)];
          }
        }
      }
    }
    assert scan[..|scan|] == scan;
  }

  // ---------------------------------------------------------------------
  // What the sweep does to each user

  /** The ids of the scanned documents are pairwise different (document
      ids of one query result). */
  predicate DistinctIds(scan: seq<(string, UserState)>) {
    forall i, j :: 0 <= i < j < |scan| ==> scan[i].0 != scan[j].0
  }

  /** What one scanned document does to the state it finds. */
  function Outcome(now: int, scanned: UserState, current: UserState): UserState {
    if Eligible(now, scanned) && StillCurrent(current, scanned.data.session.lastQuestionTimestamp) then
      Advanced(current)
    else
      current
  }

  /** A user the scan did not see keeps their state document. */
  lemma {:induction false} SweepSkipsUnscanned(now: int, scan: seq<(string, UserState)>, store: map<string, UserState>, id: string)
    requires id in store
    requires forall i :: 0 <= i < |scan| ==> scan[i].0 != id
    ensures Sweep(now, scan, store)[id] == store[id]
  {
    if scan != [] {
      SweepSkipsUnscanned(now, scan[..|scan| - 1], store, id);
    }
  }

  /** With distinct ids, each scanned user's document ends up exactly as
      one guarded update leaves it, applied to the document as it was. */
  lemma {:induction false} SweepOfScanned(now: int, scan: seq<(string, UserState)>, store: map<string, UserState>, i: nat)
    requires DistinctIds(scan)
    requires i < |scan| && scan[i].0 in store
    ensures Sweep(now, scan, store)[scan[i].0] == Outcome(now, scan[i].1, store[scan[i].0])
  {
    var front := scan[..|scan| - 1];
    var id := scan[i].0;
    if i == |scan| - 1 {
      SweepSkipsUnscanned(now, front, store, id);
    } else {
      assert front[i] == scan[i];
      assert DistinctIds(front) by {
        forall a, b | 0 <= a < b < |front| ensures front[a].0 != front[b].0 {
          assert front[a] == scan[a] && front[b] == scan[b];
        }
      }
      SweepOfScanned(now, front, store, i);
      assert scan[|scan| - 1].0 != id;
    }
  }

  /** A session that is not timed, or has no timestamp for its current
      question, is never touched, whatever the clock. */
  lemma UntimedNeverTouched(now: int, scan: seq<(string, UserState)>, store: map<string, UserState>, i: nat)
    requires DistinctIds(scan)
    requires i < |scan| && scan[i].0 in store
    requires scan[i].1.data.Quiz?
    requires scan[i].1.data.session.timePerQuestion <= 0 || scan[i].1.data.session.lastQuestionTimestamp == 0
    ensures Sweep(now, scan, store)[scan[i].0] == store[scan[i].0]
  {
    SweepOfScanned(now, scan, store, i);
  }

  /** A session whose time plus grace has not yet run out is left alone. */
  lemma NotDueUntouched(now: int, scan: seq<(string, UserState)>, store: map<string, UserState>, i: nat)
    requires DistinctIds(scan)
    requires i < |scan| && scan[i].0 in store
    requires scan[i].1.data.Quiz?
    requires now - scan[i].1.data.session.lastQuestionTimestamp
          <= (scan[i].1.data.session.timePerQuestion + GraceSeconds) * MillisPerSecond
    ensures Sweep(now, scan, store)[scan[i].0] == store[scan[i].0]
  {
    SweepOfScanned(now, scan, store, i);
  }

  /** A session that left `taking_exam`, or whose timestamp changed since
      the scan (its next question was already sent), is left alone. */
  lemma StaleScanUntouched(now: int, scan: seq<(string, UserState)>, store: map<string, UserState>, i: nat)
    requires DistinctIds(scan)
    requires i < |scan| && scan[i].0 in store
    requires scan[i].1.data.Quiz?
    requires || store[scan[i].0].state != TakingExam
             || !store[scan[i].0].data.Quiz?
             || store[scan[i].0].data.session.lastQuestionTimestamp != scan[i].1.data.session.lastQuestionTimestamp
    ensures Sweep(now, scan, store)[scan[i].0] == store[scan[i].0]
  {
    SweepOfScanned(now, scan, store, i);
  }

  /** When the scan is what the store holds, every due session moves on by
      one question and every other document stays as it was. */
  lemma FreshScanAdvancesDue(now: int, scan: seq<(string, UserState)>, store: map<string, UserState>, i: nat)
    requires DistinctIds(scan)
    requires forall k :: 0 <= k < |scan| ==> scan[k].0 in store && store[scan[k].0] == scan[k].1 && scan[k].1.state == TakingExam
    requires i < |scan|
    ensures Eligible(now, scan[i].1) ==> Sweep(now, scan, store)[scan[i].0] == Advanced(store[scan[i].0])
    ensures !Eligible(now, scan[i].1) ==> Sweep(now, scan, store)[scan[i].0] == store[scan[i].0]
  {
    SweepOfScanned(now, scan, store, i);
  }
}

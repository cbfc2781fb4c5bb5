/**
 * A student's past results: score records grouped by exam, each group
 * listed newest first, and rendered as the results message.
 */
module Scores {
  import opened Wrappers
  import opened Text
  import opened Sorting
  import opened Seqs

  /** A score record as read back for one student. `timestamp` is in
      milliseconds; `0` stands for a missing (falsy) one. */
  datatype Attempt = Attempt(examId: string, score: int, totalQuestions: int, timestamp: int)

  /** The attempts of one exam, in the order the message lists them. */
  datatype Group = Group(examId: string, attempts: seq<Attempt>)

  const NoResultsText: string := "لا توجد نتائج مسجلة لهذا الطالب."
  const HeaderText: string := "📊 **النتائج السابقة:**\n\n"
  const UnknownDateText: string := "غير محدد"

  predicate Distinct(ids: seq<string>) {
    forall i, j :: 0 <= i < j < |ids| ==> ids[i] != ids[j]
  }

  /** The attempts of exam `examId`, in input order. */
  function AttemptsOf(s: seq<Attempt>, examId: string): (r: seq<Attempt>)
    ensures forall i :: 0 <= i < |r| ==> r[i].examId == examId
  {
    if s == [] then []
    else AttemptsOf(s[..|s| - 1], examId) + (if s[|s| - 1].examId == examId then [s[|s| - 1]] else [])
  }

  /** The attempts whose exam is one of `examIds`, in input order. */
  function AttemptsIn(s: seq<Attempt>, examIds: seq<string>): seq<Attempt> {
    if s == [] then []
    else AttemptsIn(s[..|s| - 1], examIds) + (if s[|s| - 1].examId in examIds then [s[|s| - 1]] else [])
  }

  /** The exams of `s`, each once, in order of first appearance: the order
      in which the source's grouping object acquires its keys. */
  function ExamIds(s: seq<Attempt>): (ids: seq<string>)
    ensures Distinct(ids)
    ensures forall k :: k in ids <==> exists i :: 0 <= i < |s| && s[i].examId == k
  {
    if s == [] then []
    else
      var p := ExamIds(s[..|s| - 1]);
      var k := s[|s| - 1].examId;
      assert forall j :: 0 <= j < |s| - 1 ==> s[..|s| - 1][j] == s[j];
      if k in p then p else p + [k]
  }

  /** The sort key of the comparator `(a, b) => b.timestamp - a.timestamp`:
      a smaller key comes first, so a later timestamp comes first. */
  function ByNewest(a: Attempt): int {
    -a.timestamp
  }

  /** The attempts of one exam, newest first (`sort((a, b) => b.timestamp - a.timestamp)`). */
  function NewestFirst(attempts: seq<Attempt>): seq<Attempt> {
    SortBy(attempts, ByNewest)
  }

  /** One group per exam id, in the order given. */
  function GroupsFor(examIds: seq<string>, s: seq<Attempt>): (gs: seq<Group>)
    ensures |gs| == |examIds|
    ensures forall i :: 0 <= i < |gs| ==> gs[i] == Group(examIds[i], NewestFirst(AttemptsOf(s, examIds[i])))
  {
    if examIds == [] then []
    else
      var k := examIds[|examIds| - 1];
      GroupsFor(examIds[..|examIds| - 1], s) + [Group(k, NewestFirst(AttemptsOf(s, k)))]
  }

  /** What the results message lists: every exam of the records once, in
      order of first appearance, each with its attempts newest first. */
  function Report(s: seq<Attempt>): seq<Group> {
    GroupsFor(ExamIds(s), s)
  }

  /** All attempts of the groups, group after group. */
  function Flatten(gs: seq<Group>): seq<Attempt> {
    if gs == [] then [] else Flatten(gs[..|gs| - 1]) + gs[|gs| - 1].attempts
  }

  // ---------------------------------------------------------------------
  // What the report promises

  lemma {:induction false} AttemptsInSplit(s: seq<Attempt>, examIds: seq<string>, k: string)
    requires k !in examIds
    ensures multiset(AttemptsIn(s, examIds + [k]))
         == multiset(AttemptsIn(s, examIds)) + multiset(AttemptsOf(s, k))
  {
    if s != [] {
      var p := s[..|s| - 1];
      var x := s[|s| - 1];
      AttemptsInSplit(p, examIds, k);
      var both := AttemptsIn(p, examIds + [k]);
      var inIds := AttemptsIn(p, examIds);
      var ofK := AttemptsOf(p, k);
      assert x.examId in examIds + [k] <==> x.examId in examIds || x.examId == k;
      if x.examId == k {
        assert AttemptsIn(s, examIds + [k]) == both + [x];
        assert AttemptsIn(s, examIds) == inIds;
        assert AttemptsOf(s, k) == ofK + [x];
      } else if x.examId in examIds {
        assert AttemptsIn(s, examIds + [k]) == both + [x];
        assert AttemptsIn(s, examIds) == inIds + [x];
        assert AttemptsOf(s, k) == ofK;
      } else {
        assert AttemptsIn(s, examIds + [k]) == both;
        assert AttemptsIn(s, examIds) == inIds;
        assert AttemptsOf(s, k) == ofK;
      }
    }
  }

  lemma {:induction false} AttemptsInAll(s: seq<Attempt>, examIds: seq<string>)
    requires forall i :: 0 <= i < |s| ==> s[i].examId in examIds
    ensures AttemptsIn(s, examIds) == s
  {
    if s != [] {
      AttemptsInAll(s[..|s| - 1], examIds);
      assert s == s[..|s| - 1] + [s[|s| - 1]];
    }
  }

  lemma {:induction false} AttemptsInNone(s: seq<Attempt>)
    ensures AttemptsIn(s, []) == []
  {
    if s != [] {
      AttemptsInNone(s[..|s| - 1]);
    }
  }

  lemma {:induction false} FlattenGroupsFor(examIds: seq<string>, s: seq<Attempt>)
    requires Distinct(examIds)
    ensures multiset(Flatten(GroupsFor(examIds, s))) == multiset(AttemptsIn(s, examIds))
  {
    if examIds == [] {
      AttemptsInNone(s);
    } else {
      var front := examIds[..|examIds| - 1];
      var k := examIds[|examIds| - 1];
      assert examIds == front + [k];
      FlattenGroupsFor(front, s);
      var gs := GroupsFor(examIds, s);
      assert gs[..|gs| - 1] == GroupsFor(front, s);
      assert k !in front by {
        forall j | 0 <= j < |front| ensures front[j] != k {
          assert front[j] == examIds[j];
        }
      }
      AttemptsInSplit(s, front, k);
    }
  }

  /** Every attempt is listed exactly once: the report is a rearrangement
      of the records. */
  lemma ReportIsPermutation(s: seq<Attempt>)
    ensures multiset(Flatten(Report(s))) == multiset(s)
  {
    var ids := ExamIds(s);
    FlattenGroupsFor(ids, s);
    AttemptsInAll(s, ids);
  }

  /** The report has one group per exam of the records, each exam once and
      in order of first appearance. */
  lemma ReportExams(s: seq<Attempt>)
    ensures |Report(s)| == |ExamIds(s)|
    ensures forall j, l :: 0 <= j < l < |Report(s)| ==> Report(s)[j].examId != Report(s)[l].examId
    ensures forall i :: 0 <= i < |s| ==>
      exists j :: 0 <= j < |Report(s)| && Report(s)[j].examId == s[i].examId
  {
    var ids := ExamIds(s);
    forall i | 0 <= i < |s| ensures exists j :: 0 <= j < |Report(s)| && Report(s)[j].examId == s[i].examId {
      assert s[i].examId in ids;
      var j :| 0 <= j < |ids| && ids[j] == s[i].examId;
      assert Report(s)[j].examId == ids[j];
    }
  }

  /** A group holds only attempts of its own exam. */
  lemma ReportGroupOfOneExam(s: seq<Attempt>, j: nat, l: nat)
    requires j < |Report(s)| && l < |Report(s)[j].attempts|
    ensures Report(s)[j].attempts[l].examId == Report(s)[j].examId
  {
    var g := Report(s)[j];
    var of := AttemptsOf(s, g.examId);
    assert multiset(g.attempts) == multiset(of);
    assert g.attempts[l] in multiset(of);
    var m :| 0 <= m < |of| && of[m] == g.attempts[l];
  }

  /** A group lists its attempts newest first. */
  lemma ReportGroupNewestFirst(s: seq<Attempt>, j: nat, l: nat, m: nat)
    requires j < |Report(s)| && l < m < |Report(s)[j].attempts|
    ensures Report(s)[j].attempts[l].timestamp >= Report(s)[j].attempts[m].timestamp
  {
    var g := Report(s)[j];
    assert SortedBy(g.attempts, ByNewest);
  }

  /** Newest first is a stable order: attempts with equal timestamps stay
      in their input order. */
  lemma NewestFirstIsStable(attempts: seq<Attempt>, t: int)
    ensures WithKey(NewestFirst(attempts), ByNewest, -t) == WithKey(attempts, ByNewest, -t)
  {
    SortByIsStable(attempts, ByNewest, -t);
  }

  // ---------------------------------------------------------------------
  // Grouping and rendering, as the source does them

  /** `groupedScores`: each record pushed onto the list of its exam, the
      exams kept in the order their keys were created. */
  method GroupByExam(scores: seq<Attempt>) returns (examIds: seq<string>, groups: map<string, seq<Attempt>>)
    ensures examIds == ExamIds(scores)
    ensures forall k :: k in groups <==> k in examIds
    ensures forall k :: k in groups ==> groups[k] == AttemptsOf(scores, k)
  {
    examIds, groups := [], map[];
    for i := 0 to |scores|
      invariant examIds == ExamIds(scores[..i])
      invariant forall k :: k in groups <==> k in examIds
      invariant forall k :: k in groups ==> groups[k] == AttemptsOf(scores[..i], k)
    {
      var s := scores[i];
      ghost var old0 := groups;
      assert scores[..i + 1] == scores[..i] + [s];
      if s.examId !in groups {
        groups := groups[s.examId := []];
        examIds := examIds + [s.examId];
      }
      groups := groups[s.examId := groups[s.examId] + [s]];
      forall k | k in groups ensures groups[k] == AttemptsOf(scores[..i + 1], k) {
        AttemptsOfSnoc(scores[..i], s, k);
        if k == s.examId && k !in old0 {
          AttemptsOfAbsent(scores[..i], k);
        }
      }
    }
    assert scores[..|scores|] == scores;
  }

  lemma AttemptsOfSnoc(p: seq<Attempt>, a: Attempt, k: string)
    ensures AttemptsOf(p + [a], k) == AttemptsOf(p, k) + (if a.examId == k then [a] else [])
  {
    assert (p + [a])[..|p|] == p;
  }

  lemma {:induction false} AttemptsOfAbsent(s: seq<Attempt>, k: string)
    requires k !in ExamIds(s)
    ensures AttemptsOf(s, k) == []
  {
    if s != [] {
      var p := s[..|s| - 1];
      assert forall i :: 0 <= i < |p| ==> p[i] == s[i];
      AttemptsOfAbsent(p, k);
    }
  }

  lemma AttemptLinesSnoc(text: string, r: string, attempts: seq<Attempt>, j: nat, dateText: int -> string)
    requires j < |attempts|
    requires r == text + AttemptLines(attempts[..j], dateText)
    ensures r + AttemptLine(attempts[j], dateText) == text + AttemptLines(attempts[..j + 1], dateText)
  {
    assert attempts[..j + 1][..j] == attempts[..j];
    ConcatAssoc(text, AttemptLines(attempts[..j], dateText), AttemptLine(attempts[j], dateText));
  }

  /** The date column: the formatted date, or the "unknown" text for a
      falsy timestamp. Locale formatting is the parameter `dateText`. */
  function DateText(a: Attempt, dateText: int -> string): string {
    if a.timestamp != 0 then dateText(a.timestamp) else UnknownDateText
  }

  function AttemptLine(a: Attempt, dateText: int -> string): string {
    " - النتيجة: " + IntToDecimal(a.score) + "/" + IntToDecimal(a.totalQuestions)
      + " — _" + DateText(a, dateText) + "_\n"
  }

  function AttemptLines(attempts: seq<Attempt>, dateText: int -> string): string {
    if attempts == [] then ""
    else AttemptLines(attempts[..|attempts| - 1], dateText) + AttemptLine(attempts[|attempts| - 1], dateText)
  }

  function GroupHeading(examId: string): string {
    "*الاختبار: " + examId + "*\n"
  }

  /** The text of the groups, one heading and its attempt lines per group,
      each group followed by an empty line. */
  function ReportText(gs: seq<Group>, dateText: int -> string): string {
    if gs == [] then ""
    else
      var g := gs[|gs| - 1];
      ReportText(gs[..|gs| - 1], dateText) + GroupHeading(g.examId) + AttemptLines(g.attempts, dateText) + "\n"
  }

  lemma ReportTextSnoc(head: string, text: string, examIds: seq<string>, i: nat, s: seq<Attempt>, dateText: int -> string)
    requires i < |examIds|
    requires text == head + ReportText(GroupsFor(examIds[..i], s), dateText)
    ensures text + GroupHeading(examIds[i]) + AttemptLines(NewestFirst(AttemptsOf(s, examIds[i])), dateText) + "\n"
         == head + ReportText(GroupsFor(examIds[..i + 1], s), dateText)
  {
    var gs := GroupsFor(examIds[..i + 1], s);
    assert examIds[..i + 1][..i] == examIds[..i];
    assert gs[..i] == GroupsFor(examIds[..i], s);
    var done := ReportText(GroupsFor(examIds[..i], s), dateText);
    var h := GroupHeading(examIds[i]);
    var l := AttemptLines(NewestFirst(AttemptsOf(s, examIds[i])), dateText);
    assert ReportText(gs, dateText) == done + h + l + "\n";
    ConcatAssoc(head, done, h);
    ConcatAssoc(head, done + h, l);
    ConcatAssoc(head, done + h + l, "\n");
  }

  /** The `forEach` over one sorted group: one line per attempt. */
  method AppendAttemptLines(text: string, attempts: seq<Attempt>, dateText: int -> string) returns (r: string)
    ensures r == text + AttemptLines(attempts, dateText)
  {
    r := text;
    for j := 0 to |attempts|
      invariant r == text + AttemptLines(attempts[..j], dateText)
    {
      AttemptLinesSnoc(text, r, attempts, j, dateText);
      r := r + AttemptLine(attempts[j], dateText);
    }
    assert attempts[..|attempts|] == attempts;
  }

  /** `formatUserScores(scores)`: the fixed "no results" text for a missing
      or empty list, otherwise the heading followed by the report. */
  method FormatUserScores(scores: Option<seq<Attempt>>, dateText: int -> string) returns (text: string)
    ensures scores == None || scores == Some([]) ==> text == NoResultsText
    ensures scores.Some? && scores.value != [] ==>
      text == HeaderText + ReportText(Report(scores.value), dateText)
  {
    if scores.None? || |scores.value| == 0 {
      return NoResultsText;
    }
    var s := scores.value;
    text := HeaderText;
    var examIds, groups := GroupByExam(s);
    assert examIds[..0] == [];
    assert HeaderText + "" == HeaderText;
    for i := 0 to |examIds|
      invariant text == HeaderText + ReportText(GroupsFor(examIds[..i], s), dateText)
    {
      var examId := examIds[i];
      assert examId in groups && groups[examId] == AttemptsOf(s, examId);
      ghost var before := text;
      text := text + GroupHeading(examId);
      text := AppendAttemptLines(text, NewestFirst(groups[examId]), dateText);
      text := text + "\n";
      ReportTextSnoc(HeaderText, before, examIds, i, s, dateText);
    }
    assert examIds[..|examIds|] == examIds;
  }
}

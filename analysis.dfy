/**
 * The spreadsheet variant (src/analysis.py): columns are classified from
 * their question text, a respondent's group for a course is read from WHICH
 * group column holds a value for them, and each course gets the mean of the
 * respondents' scores.
 */
module Analysis {
  import opened Wrappers
  import opened Strings
  import opened Cells
  import opened Stats
  import RanksPattern

  /** A two-row spreadsheet header: the question text and the survey tool's ImportId. */
  datatype Header = Header(text: string, importId: string)

  /** The loaded spreadsheet: one header per column, then the respondents' rows. */
  datatype Sheet = Sheet(headers: seq<Header>, rows: Rows)

  datatype Category = Core | Elective

  /** What the classifier keeps of a relevant column; `column` is its position in the sheet. */
  datatype ColumnInfo = ColumnInfo(category: Category, group: string, course: string, column: nat, importId: string)

  const CORE_MARKER := "CORE"
  const ELECTIVE_MARKER := "Elective"

  // ---------------------------------------------------------------------------
  // Column classifier
  // ---------------------------------------------------------------------------

  /** `parse_header`: a record for a Core or Elective ranking column, `None` for every other column. */
  function ParseHeader(h: Header, column: nat): (r: Option<ColumnInfo>)
    ensures r.Some? ==> r.value.column == column && r.value.importId == h.importId
  {
    var isCore := Contains(h.text, CORE_MARKER);
    var isElective := Contains(h.text, ELECTIVE_MARKER);
    if !(isCore || isElective) then None
    else match RanksPattern.Search(h.text)
      case None => None
      case Some(c) => Some(ColumnInfo(if isCore then Core else Elective, c.group, c.course, column, h.importId))
  }

  /**
   * A column is classified only when its text carries a marker; the category is
   * Core exactly when "CORE" occurs (so Core wins over Elective); and the text
   * holds ` - Ranks - <group> - <course> - Rank` with the two extracted segments.
   */
  lemma ParseHeaderSound(h: Header, column: nat)
    ensures ParseHeader(h, column).Some? ==>
      var info := ParseHeader(h, column).value;
      && (Contains(h.text, CORE_MARKER) || Contains(h.text, ELECTIVE_MARKER))
      && (info.category == Core <==> Contains(h.text, CORE_MARKER))
      && (info.category == Elective <==> !Contains(h.text, CORE_MARKER))
      && Contains(h.text, RanksPattern.Instance(RanksPattern.Captures(info.group, info.course)))
      && NoNewline(info.group) && NoNewline(info.course)
  {
    RanksPattern.SearchSound(h.text);
  }

  /** A marker alone is not enough: without ` - Ranks - ` the column is dropped. */
  lemma ParseHeaderNeedsRanks(h: Header, column: nat)
    ensures !Contains(h.text, RanksPattern.LEAD) ==> ParseHeader(h, column).None?
  {
    RanksPattern.SearchNeedsLead(h.text);
  }

  /** Conversely, a marker and one occurrence of the pattern make the column relevant. */
  lemma ParseHeaderComplete(h: Header, column: nat, j: nat, c: RanksPattern.Captures)
    requires Contains(h.text, CORE_MARKER) || Contains(h.text, ELECTIVE_MARKER)
    requires j <= |h.text| && StartsWith(h.text[j..], RanksPattern.Instance(c))
    requires NoNewline(c.group) && NoNewline(c.course)
    ensures ParseHeader(h, column).Some?
  {
    RanksPattern.SearchComplete(h.text, j, c);
  }

  /** The loop collecting `relevant_columns`: every header's record, in column order. */
  function RelevantColumns(headers: seq<Header>): seq<ColumnInfo>
    decreases |headers|
  {
    if |headers| == 0 then []
    else
      var last := |headers| - 1;
      RelevantColumns(headers[..last])
        + match ParseHeader(headers[last], last) case Some(info) => [info] case None => []
  }

  method FindRelevantColumns(headers: seq<Header>) returns (relevant: seq<ColumnInfo>)
    ensures relevant == RelevantColumns(headers)
  {
    relevant := [];
    var j := 0;
    while j < |headers|
      invariant j <= |headers|
      invariant relevant == RelevantColumns(headers[..j])
    {
      var info := ParseHeader(headers[j], j);
      if info.Some? {
        relevant := relevant + [info.value];
      }
      assert headers[..j + 1][..j] == headers[..j];
      j := j + 1;
    }
    assert headers[..j] == headers;
  }

  /**
   * The relevant columns are exactly the records of the headers that classify,
   * each kept once, in increasing column order.
   */
  lemma RelevantColumnsSpec(headers: seq<Header>)
    ensures forall j :: 0 <= j < |headers| && ParseHeader(headers[j], j).Some? ==>
      ParseHeader(headers[j], j).value in RelevantColumns(headers)
    ensures forall info :: info in RelevantColumns(headers) ==>
      info.column < |headers| && ParseHeader(headers[info.column], info.column) == Some(info)
    ensures forall a, b :: 0 <= a < b < |RelevantColumns(headers)| ==>
      RelevantColumns(headers)[a].column < RelevantColumns(headers)[b].column
  {
    RelevantColumnsComplete(headers);
    RelevantColumnsSound(headers);
    RelevantColumnsIncreasing(headers);
  }

  lemma {:induction false} RelevantColumnsComplete(headers: seq<Header>)
    ensures forall j :: 0 <= j < |headers| && ParseHeader(headers[j], j).Some? ==>
      ParseHeader(headers[j], j).value in RelevantColumns(headers)
    decreases |headers|
  {
    if |headers| > 0 {
      var last := |headers| - 1;
      var prefix := headers[..last];
      RelevantColumnsComplete(prefix);
      assert forall j :: 0 <= j < last ==> headers[j] == prefix[j];
    }
  }

  lemma {:induction false} RelevantColumnsSound(headers: seq<Header>)
    ensures forall info :: info in RelevantColumns(headers) ==>
      info.column < |headers| && ParseHeader(headers[info.column], info.column) == Some(info)
    decreases |headers|
  {
    if |headers| > 0 {
      var last := |headers| - 1;
      var prefix := headers[..last];
      RelevantColumnsSound(prefix);
      assert forall j :: 0 <= j < last ==> headers[j] == prefix[j];
    }
  }

  lemma {:induction false} RelevantColumnsIncreasing(headers: seq<Header>)
    ensures forall info :: info in RelevantColumns(headers) ==> info.column < |headers|
    ensures forall a, b :: 0 <= a < b < |RelevantColumns(headers)| ==>
      RelevantColumns(headers)[a].column < RelevantColumns(headers)[b].column
    decreases |headers|
  {
    if |headers| > 0 {
      var last := |headers| - 1;
      RelevantColumnsIncreasing(headers[..last]);
    }
  }

  // ---------------------------------------------------------------------------
  // Audit trail: the relevant columns grouped by course (`unique_courses`)
  // ---------------------------------------------------------------------------

  /** The course names of the relevant columns, each once, in order of first appearance. */
  function Courses(relevant: seq<ColumnInfo>): seq<string>
    decreases |relevant|
  {
    if |relevant| == 0 then []
    else
      var earlier := Courses(relevant[..|relevant| - 1]);
      var course := relevant[|relevant| - 1].course;
      if course in earlier then earlier else earlier + [course]
  }

  /** The import ids of the relevant columns of one course, in column order. */
  function ImportIds(relevant: seq<ColumnInfo>, course: string): seq<string>
    decreases |relevant|
  {
    if |relevant| == 0 then []
    else
      var last := relevant[|relevant| - 1];
      ImportIds(relevant[..|relevant| - 1], course) + if last.course == course then [last.importId] else []
  }

  /** Each course occurs once, and the courses are exactly those of the relevant columns. */
  lemma {:induction false} CoursesSpec(relevant: seq<ColumnInfo>)
    ensures forall a, b :: 0 <= a < b < |Courses(relevant)| ==> Courses(relevant)[a] != Courses(relevant)[b]
    ensures forall c :: c in Courses(relevant) <==> exists info :: info in relevant && info.course == c
    decreases |relevant|
  {
    if |relevant| > 0 {
      var prefix := relevant[..|relevant| - 1];
      CoursesSpec(prefix);
      assert relevant == prefix + [relevant[|relevant| - 1]];
    }
  }

  /** A course that no column names has no import ids. */
  lemma {:induction false} ImportIdsOfAbsent(relevant: seq<ColumnInfo>, course: string)
    requires course !in Courses(relevant)
    ensures ImportIds(relevant, course) == []
    decreases |relevant|
  {
    if |relevant| > 0 {
      ImportIdsOfAbsent(relevant[..|relevant| - 1], course);
    }
  }

  /** The positions, among the relevant columns, of those of one course. */
  function CourseIndices(relevant: seq<ColumnInfo>, course: string): set<int>
  {
    set j | 0 <= j < |relevant| && relevant[j].course == course
  }

  /** Every relevant column's import id is listed once, under its own course. */
  lemma {:induction false} ImportIdsCount(relevant: seq<ColumnInfo>, course: string)
    ensures |ImportIds(relevant, course)| == |CourseIndices(relevant, course)|
    decreases |relevant|
  {
    var n := |relevant|;
    if n > 0 {
      ImportIdsCount(relevant[..n - 1], course);
      CourseIndicesStep(relevant, course);
    }
  }

  lemma CourseIndicesStep(relevant: seq<ColumnInfo>, course: string)
    requires |relevant| > 0
    ensures var n := |relevant|;
      && CourseIndices(relevant, course) ==
           CourseIndices(relevant[..n - 1], course) + (if relevant[n - 1].course == course then {n - 1} else {})
      && n - 1 !in CourseIndices(relevant[..n - 1], course)
  {
    var n := |relevant|;
    var prefix := relevant[..n - 1];
    var extra: set<int> := if relevant[n - 1].course == course then {n - 1} else {};
    forall j | j in CourseIndices(relevant, course) ensures j in CourseIndices(prefix, course) + extra {
      if j < n - 1 {
        assert prefix[j] == relevant[j];
      }
    }
    forall j | j in CourseIndices(prefix, course) + extra ensures j in CourseIndices(relevant, course) {
      if j < n - 1 {
        assert prefix[j] == relevant[j];
      }
    }
  }

  /** How the course list and the import ids grow when one more relevant column is read. */
  lemma IndexStep(relevant: seq<ColumnInfo>, i: nat)
    requires i < |relevant|
    ensures Courses(relevant[..i + 1]) ==
      if relevant[i].course in Courses(relevant[..i]) then Courses(relevant[..i]) else Courses(relevant[..i]) + [relevant[i].course]
    ensures forall c :: ImportIds(relevant[..i + 1], c) == ImportIds(relevant[..i], c) + (if relevant[i].course == c then [relevant[i].importId] else [])
  {
    assert relevant[..i + 1][..i] == relevant[..i];
  }

  /** The loop building `unique_courses`: the dictionary and its key order. */
  method IndexCourses(relevant: seq<ColumnInfo>) returns (courses: seq<string>, ids: map<string, seq<string>>)
    ensures courses == Courses(relevant)
    ensures forall c :: c in ids <==> c in courses
    ensures forall c :: c in ids ==> ids[c] == ImportIds(relevant, c)
  {
    courses, ids := [], map[];
    var i := 0;
    while i < |relevant|
      invariant i <= |relevant|
      invariant courses == Courses(relevant[..i])
      invariant forall c :: c in ids <==> c in courses
      invariant forall c :: c in ids ==> ids[c] == ImportIds(relevant[..i], c)
    {
      var info := relevant[i];
      IndexStep(relevant, i);
      if info.course !in ids {
        ImportIdsOfAbsent(relevant[..i], info.course);
        courses := courses + [info.course];
        ids := ids[info.course := []];
      }
      ids := ids[info.course := ids[info.course] + [info.importId]];
      i := i + 1;
    }
    assert relevant[..i] == relevant;
  }

  // ---------------------------------------------------------------------------
  // Scores: presence in a group column, the group fixing the score
  // ---------------------------------------------------------------------------

  /**
   * The score of a group label, by exact equality: 3, 2 and 1 for the three
   * ranking groups; "Did not take" and every other label score nothing.
   */
  function GroupScore(group: string): (r: Option<int>)
    ensures r.Some? ==> 1 <= r.value <= 3
    ensures r.Some? ==> group == "Most Beneficial" || group == "Neutral" || group == "Least Beneficial"
  {
    if group == "Most Beneficial" then Some(3)
    else if group == "Neutral" then Some(2)
    else if group == "Least Beneficial" then Some(1)
    else None  // "Did not take" and any other label
  }

  /** The columns of one course, in column order (the comprehension building `cols`). */
  function CourseColumns(relevant: seq<ColumnInfo>, course: string): (cols: seq<ColumnInfo>)
    decreases |relevant|
  {
    if |relevant| == 0 then []
    else
      var last := relevant[|relevant| - 1];
      CourseColumns(relevant[..|relevant| - 1], course) + if last.course == course then [last] else []
  }

  /** `CourseColumns` keeps the relevant columns of that course and nothing else. */
  lemma {:induction false} CourseColumnsSpec(relevant: seq<ColumnInfo>, course: string)
    ensures forall info :: info in CourseColumns(relevant, course) <==> info in relevant && info.course == course
    decreases |relevant|
  {
    if |relevant| > 0 {
      var prefix := relevant[..|relevant| - 1];
      CourseColumnsSpec(prefix, course);
      assert relevant == prefix + [relevant[|relevant| - 1]];
    }
  }

  /**
   * Column `i` decides scores: its group scores, and no later column of the
   * same course has the same group label. (`course_df` is keyed by group label,
   * so a later column with the label replaces an earlier one.)
   */
  predicate Effective(cols: seq<ColumnInfo>, i: nat)
    requires i < |cols|
  {
    GroupScore(cols[i].group).Some? && forall j :: i < j < |cols| ==> cols[j].group != cols[i].group
  }

  /** What column `i` says of respondent row `r`: its group's score when their cell is present. */
  function Candidate(sheet: Sheet, cols: seq<ColumnInfo>, r: nat, i: nat): Option<int>
    requires i < |cols|
  {
    if Effective(cols, i) && Present(CellAt(sheet.rows, r, cols[i].column)) then GroupScore(cols[i].group) else None
  }

  function ScoreUpTo(sheet: Sheet, cols: seq<ColumnInfo>, r: nat, n: nat): Option<int>
    requires n <= |cols|
  {
    if n == 0 then None else OptMax(ScoreUpTo(sheet, cols, r, n - 1), Candidate(sheet, cols, r, n - 1))
  }

  /** A respondent's score for the course: the largest candidate of its columns, if any. */
  function RespondentScore(sheet: Sheet, cols: seq<ColumnInfo>, r: nat): Option<int>
  {
    ScoreUpTo(sheet, cols, r, |cols|)
  }

  /** The scores of the respondents in rows below `n` that have one, in row order. */
  function ValidScores(sheet: Sheet, cols: seq<ColumnInfo>, n: nat): seq<int>
  {
    if n == 0 then []
    else ValidScores(sheet, cols, n - 1) + match RespondentScore(sheet, cols, n - 1) case Some(v) => [v] case None => []
  }

  /** The course value: the mean over respondents with a score; undefined (NaN) when there are none. */
  function CourseMean(sheet: Sheet, cols: seq<ColumnInfo>): Option<real>
  {
    var scores := ValidScores(sheet, cols, |sheet.rows|);
    if |scores| == 0 then None else Some(Mean(scores))
  }

  /** `best` is the largest element of `cands`, and missing exactly when `cands` is empty. */
  ghost predicate IsMax(best: Option<int>, cands: set<int>)
  {
    && (best.None? <==> cands == {})
    && (best.Some? ==> best.value in cands && forall x :: x in cands ==> x <= best.value)
  }

  ghost function SpecCandidates(sheet: Sheet, cols: seq<ColumnInfo>, r: nat, n: nat): set<int>
    requires n <= |cols|
  {
    set i | 0 <= i < n && Candidate(sheet, cols, r, i).Some? :: Candidate(sheet, cols, r, i).value
  }

  lemma {:induction false} ScoreUpToIsMax(sheet: Sheet, cols: seq<ColumnInfo>, r: nat, n: nat)
    requires n <= |cols|
    ensures IsMax(ScoreUpTo(sheet, cols, r, n), SpecCandidates(sheet, cols, r, n))
  {
    if n > 0 {
      ScoreUpToIsMax(sheet, cols, r, n - 1);
      SpecCandidatesStep(sheet, cols, r, n);
    } else {
      assert SpecCandidates(sheet, cols, r, n) == {};
    }
  }

  lemma SpecCandidatesStep(sheet: Sheet, cols: seq<ColumnInfo>, r: nat, n: nat)
    requires 0 < n <= |cols|
    ensures var c := Candidate(sheet, cols, r, n - 1);
      SpecCandidates(sheet, cols, r, n) == SpecCandidates(sheet, cols, r, n - 1) + if c.Some? then {c.value} else {}
  {
    var c := Candidate(sheet, cols, r, n - 1);
    var extra := if c.Some? then {c.value} else {};
    var earlier := SpecCandidates(sheet, cols, r, n - 1);
    forall x | x in SpecCandidates(sheet, cols, r, n) ensures x in earlier + extra {
      var i :| 0 <= i < n && Candidate(sheet, cols, r, i).Some? && Candidate(sheet, cols, r, i).value == x;
      if i < n - 1 {
        assert x in earlier;
      }
    }
  }

  /**
   * A respondent's score is the maximum of the scores of the deciding columns
   * where their cell is present, whatever the cell holds; with no such column
   * the respondent has no score.
   */
  lemma RespondentScoreIsMax(sheet: Sheet, cols: seq<ColumnInfo>, r: nat)
    ensures RespondentScore(sheet, cols, r).None? <==>
      forall i :: 0 <= i < |cols| && Effective(cols, i) ==> !Present(CellAt(sheet.rows, r, cols[i].column))
    ensures RespondentScore(sheet, cols, r).Some? ==>
      exists i :: 0 <= i < |cols| && Effective(cols, i) && Present(CellAt(sheet.rows, r, cols[i].column))
        && GroupScore(cols[i].group) == RespondentScore(sheet, cols, r)
    ensures forall i :: 0 <= i < |cols| && Effective(cols, i) && Present(CellAt(sheet.rows, r, cols[i].column)) ==>
      RespondentScore(sheet, cols, r).Some? && GroupScore(cols[i].group).value <= RespondentScore(sheet, cols, r).value
  {
    ScoreUpToIsMax(sheet, cols, r, |cols|);
    var best := RespondentScore(sheet, cols, r);
    forall i | 0 <= i < |cols| && Effective(cols, i) && Present(CellAt(sheet.rows, r, cols[i].column))
      ensures GroupScore(cols[i].group).value in SpecCandidates(sheet, cols, r, |cols|)
    {
      assert Candidate(sheet, cols, r, i).Some?;
    }
    if best.Some? {
      var i :| 0 <= i < |cols| && Candidate(sheet, cols, r, i).Some? && Candidate(sheet, cols, r, i).value == best.value;
      assert GroupScore(cols[i].group) == best;
    }
  }

  /** With no repeated group label among a course's columns, the score is the max over all its scoring columns. */
  lemma DistinctGroupsScoreIsMax(sheet: Sheet, cols: seq<ColumnInfo>, r: nat)
    requires forall a, b :: 0 <= a < b < |cols| ==> cols[a].group != cols[b].group
    ensures RespondentScore(sheet, cols, r).None? <==>
      forall i :: 0 <= i < |cols| && GroupScore(cols[i].group).Some? ==> !Present(CellAt(sheet.rows, r, cols[i].column))
    ensures forall i :: 0 <= i < |cols| && GroupScore(cols[i].group).Some? && Present(CellAt(sheet.rows, r, cols[i].column)) ==>
      RespondentScore(sheet, cols, r).Some? && GroupScore(cols[i].group).value <= RespondentScore(sheet, cols, r).value
    ensures RespondentScore(sheet, cols, r).Some? ==>
      exists i :: 0 <= i < |cols| && GroupScore(cols[i].group).Some? && Present(CellAt(sheet.rows, r, cols[i].column))
        && GroupScore(cols[i].group) == RespondentScore(sheet, cols, r)
  {
    assert forall i :: 0 <= i < |cols| ==> (Effective(cols, i) <==> GroupScore(cols[i].group).Some?);
    RespondentScoreIsMax(sheet, cols, r);
  }

  /** Every score that enters a course mean is 1, 2 or 3. */
  lemma {:induction false} ValidScoresInRange(sheet: Sheet, cols: seq<ColumnInfo>, n: nat)
    ensures forall k :: 0 <= k < |ValidScores(sheet, cols, n)| ==> 1 <= ValidScores(sheet, cols, n)[k] <= 3
  {
    if n > 0 {
      ValidScoresInRange(sheet, cols, n - 1);
      RespondentScoreIsMax(sheet, cols, n - 1);
    }
  }

  /** A defined course value lies in [1, 3]. */
  lemma CourseMeanBounds(sheet: Sheet, cols: seq<ColumnInfo>)
    ensures CourseMean(sheet, cols).Some? ==> 1.0 <= CourseMean(sheet, cols).value <= 3.0
  {
    var scores := ValidScores(sheet, cols, |sheet.rows|);
    if |scores| > 0 {
      ValidScoresInRange(sheet, cols, |sheet.rows|);
      MeanBounds(scores, 1, 3);
    }
  }

  lemma {:induction false} ValidScoresEmpty(sheet: Sheet, cols: seq<ColumnInfo>, n: nat)
    ensures ValidScores(sheet, cols, n) == [] <==> forall r :: 0 <= r < n ==> RespondentScore(sheet, cols, r).None?
  {
    if n > 0 {
      ValidScoresEmpty(sheet, cols, n - 1);
    }
  }

  /** The course value is undefined exactly when no respondent has a score (they are dropped, not counted as 0). */
  lemma CourseMeanUndefined(sheet: Sheet, cols: seq<ColumnInfo>)
    ensures CourseMean(sheet, cols).None? <==>
      forall r :: 0 <= r < |sheet.rows| ==> RespondentScore(sheet, cols, r).None?
  {
    ValidScoresEmpty(sheet, cols, |sheet.rows|);
  }

  /** A course whose columns all carry non-scoring groups (e.g. all "Did not take") has no value. */
  lemma NoScoringColumnsUndefined(sheet: Sheet, cols: seq<ColumnInfo>)
    requires forall i :: 0 <= i < |cols| ==> GroupScore(cols[i].group).None?
    ensures CourseMean(sheet, cols).None?
  {
    forall r | 0 <= r < |sheet.rows|
      ensures RespondentScore(sheet, cols, r).None?
    {
      RespondentScoreIsMax(sheet, cols, r);
    }
    CourseMeanUndefined(sheet, cols);
  }

  /** Only presence is read: the rank a cell holds never changes a course value. */
  lemma RanksIgnored(s1: Sheet, s2: Sheet, cols: seq<ColumnInfo>)
    requires |s1.rows| == |s2.rows|
    requires forall r, c :: Present(CellAt(s1.rows, r, c)) <==> Present(CellAt(s2.rows, r, c))
    ensures CourseMean(s1, cols) == CourseMean(s2, cols)
  {
    forall r: nat, n: nat | n <= |cols|
      ensures ScoreUpTo(s1, cols, r, n) == ScoreUpTo(s2, cols, r, n)
    {
      ScoreUpToPresenceOnly(s1, s2, cols, r, n);
    }
    ValidScoresPresenceOnly(s1, s2, cols, |s1.rows|);
  }

  lemma {:induction false} ScoreUpToPresenceOnly(s1: Sheet, s2: Sheet, cols: seq<ColumnInfo>, r: nat, n: nat)
    requires n <= |cols|
    requires forall r, c :: Present(CellAt(s1.rows, r, c)) <==> Present(CellAt(s2.rows, r, c))
    ensures ScoreUpTo(s1, cols, r, n) == ScoreUpTo(s2, cols, r, n)
  {
    if n > 0 {
      ScoreUpToPresenceOnly(s1, s2, cols, r, n - 1);
      assert Candidate(s1, cols, r, n - 1) == Candidate(s2, cols, r, n - 1);
    }
  }

  lemma {:induction false} ValidScoresPresenceOnly(s1: Sheet, s2: Sheet, cols: seq<ColumnInfo>, n: nat)
    requires forall r: nat :: RespondentScore(s1, cols, r) == RespondentScore(s2, cols, r)
    ensures ValidScores(s1, cols, n) == ValidScores(s2, cols, n)
  {
    if n > 0 {
      ValidScoresPresenceOnly(s1, s2, cols, n - 1);
    }
  }

  /**
   * Because `course_df` is keyed by group label, when two columns of a course
   * share a group the earlier one is replaced: a respondent present only in it
   * gets no score, although that column scores and their cell is present.
   */
  lemma RepeatedGroupReplaced()
    ensures
      var cols := [ColumnInfo(Core, "Most Beneficial", "Audit", 0, "QID1"),
                   ColumnInfo(Elective, "Most Beneficial", "Audit", 1, "QID2")];
      var sheet := Sheet([], [[Num(1), Empty]]);
      && GroupScore(cols[0].group) == Some(3)
      && Present(CellAt(sheet.rows, 0, cols[0].column))
      && RespondentScore(sheet, cols, 0).None?
      && CourseMean(sheet, cols).None?
  {
    var cols := [ColumnInfo(Core, "Most Beneficial", "Audit", 0, "QID1"),
                 ColumnInfo(Elective, "Most Beneficial", "Audit", 1, "QID2")];
    var sheet := Sheet([], [[Num(1), Empty]]);
    assert cols[1].group == cols[0].group;
    assert !Effective(cols, 0);
    assert !Present(CellAt(sheet.rows, 0, cols[1].column));
    assert Candidate(sheet, cols, 0, 0).None?;
    assert Candidate(sheet, cols, 0, 1).None?;
    assert ScoreUpTo(sheet, cols, 0, 1).None?;
    assert RespondentScore(sheet, cols, 0).None?;
    assert ValidScores(sheet, cols, 1) == [];
  }

  /**
   * One course, three group columns; respondent A's cell is present in Most
   * Beneficial, respondent B's in Neutral: the course value is (3 + 2) / 2.
   */
  lemma TwoRespondentsScenario()
    ensures CourseMean(TWO_SHEET, TWO_COLS) == Some(2.5)
  {
    TwoRespondentsValid();
    MeanThreeTwo();
  }

  lemma TwoRespondentsValid()
    ensures ValidScores(TWO_SHEET, TWO_COLS, 2) == [3, 2]
  {
    TwoRespondentsScores();
    assert ValidScores(TWO_SHEET, TWO_COLS, 1) == [3];
  }

  const TWO_COLS := [ColumnInfo(Core, "Most Beneficial", "Tax", 0, "QID84_G0_1_RANK"),
                     ColumnInfo(Core, "Neutral", "Tax", 1, "QID84_G1_1_RANK"),
                     ColumnInfo(Core, "Least Beneficial", "Tax", 2, "QID84_G2_1_RANK")]

  const TWO_SHEET := Sheet([], [[Num(1), Empty, Empty], [Empty, Num(2), Empty]])

  lemma TwoRespondentsScores()
    ensures RespondentScore(TWO_SHEET, TWO_COLS, 0) == Some(3)
    ensures RespondentScore(TWO_SHEET, TWO_COLS, 1) == Some(2)
  {
    assert TWO_COLS[0].group != TWO_COLS[1].group && TWO_COLS[1].group != TWO_COLS[2].group && TWO_COLS[0].group != TWO_COLS[2].group;
    assert Effective(TWO_COLS, 0) && Effective(TWO_COLS, 1) && Effective(TWO_COLS, 2);
  }

  // ---------------------------------------------------------------------------
  // `course_df` and the per-course loop
  // ---------------------------------------------------------------------------

  /** `course_df`: score columns named by group label, in insertion order, over the respondents' rows. */
  datatype Frame = Frame(height: nat, labels: seq<string>, data: map<string, seq<Option<int>>>)
  {
    /** `course_df.empty`: no column, or no row. */
    predicate IsEmpty()
    {
      |labels| == 0 || height == 0
    }

    /**
     * `course_df[name] = series`: a column of that name is replaced where it
     * stands, otherwise one is appended; the first column fixes the rows.
     */
    function Assign(name: string, series: seq<Option<int>>): Frame
    {
      if labels == [] then Frame(|series|, [name], map[name := series])
      else Frame(height, if name in data then labels else labels + [name], data[name := series])
    }

    function Value(name: string, r: nat): Option<int>
    {
      if name in data && r < |data[name]| then data[name][r] else None
    }

    function RowMaxOver(r: nat, k: nat): Option<int>
      requires k <= |labels|
    {
      if k == 0 then None else OptMax(RowMaxOver(r, k - 1), Value(labels[k - 1], r))
    }

    /** `course_df.max(axis=1)`: per row, the largest present value across the columns. */
    function RowMax(): seq<Option<int>>
    {
      seq(height, r requires 0 <= r < height => RowMaxOver(r, |labels|))
    }
  }

  const EMPTY_FRAME := Frame(0, [], map[])

  /** `df[col].notna().astype(int) * score` with 0 replaced by NaN: the score where the cell is present. */
  function ScoreSeries(rows: Rows, column: nat, score: int): (series: seq<Option<int>>)
    ensures |series| == |rows|
  {
    seq(|rows|, r requires 0 <= r < |rows| => if Present(CellAt(rows, r, column)) then Some(score) else None)
  }

  /** `course_df` after the loop over a course's columns has assigned each scoring one. */
  ghost function BuildFrame(rows: Rows, cols: seq<ColumnInfo>): Frame
    decreases |cols|
  {
    if |cols| == 0 then EMPTY_FRAME
    else
      var f := BuildFrame(rows, cols[..|cols| - 1]);
      var x := cols[|cols| - 1];
      match GroupScore(x.group)
      case None => f
      case Some(score) => f.Assign(x.group, ScoreSeries(rows, x.column, score))
  }

  /** The columns of `course_df` are the deciding columns of the course, each holding its score series. */
  lemma BuildFrameShape(rows: Rows, cols: seq<ColumnInfo>)
    ensures var f := BuildFrame(rows, cols);
      && (forall g :: g in f.data <==> g in f.labels)
      && (f.labels != [] ==> f.height == |rows|)
      && (forall g :: g in f.data <==> exists i :: 0 <= i < |cols| && Effective(cols, i) && cols[i].group == g)
      && (forall i :: 0 <= i < |cols| && Effective(cols, i) ==>
            cols[i].group in f.data
            && f.data[cols[i].group] == ScoreSeries(rows, cols[i].column, GroupScore(cols[i].group).value))
  {
    BuildFrameLabels(rows, cols);
    BuildFrameKeys(rows, cols);
    BuildFrameSeries(rows, cols);
  }

  /** The frame's labels are its keys, and once it has a column its height is the number of rows. */
  lemma {:induction false} BuildFrameLabels(rows: Rows, cols: seq<ColumnInfo>)
    ensures var f := BuildFrame(rows, cols);
      && (forall g :: g in f.data <==> g in f.labels)
      && (f.labels != [] ==> f.height == |rows|)
    decreases |cols|
  {
    if |cols| > 0 {
      BuildFrameLabels(rows, cols[..|cols| - 1]);
    }
  }

  /** The frame's keys are the groups of the deciding columns. */
  lemma {:induction false} BuildFrameKeys(rows: Rows, cols: seq<ColumnInfo>)
    ensures forall g :: g in BuildFrame(rows, cols).data <==>
      exists i :: 0 <= i < |cols| && Effective(cols, i) && cols[i].group == g
    decreases |cols|
  {
    var n := |cols|;
    if n > 0 {
      var prefix, x := cols[..n - 1], cols[n - 1];
      var f := BuildFrame(rows, prefix);
      BuildFrameKeys(rows, prefix);
      BuildFrameLabels(rows, prefix);
      EffectiveStep(cols);
      var keys := if GroupScore(x.group).Some? then f.data.Keys + {x.group} else f.data.Keys;
      assert BuildFrame(rows, cols).data.Keys == keys;
      forall g ensures g in keys <==> exists i :: 0 <= i < n && Effective(cols, i) && cols[i].group == g
      {
        if g == x.group {
          if GroupScore(x.group).Some? {
            assert Effective(cols, n - 1);
          }
        } else if g in keys {
          var i :| 0 <= i < n - 1 && Effective(prefix, i) && prefix[i].group == g;
          assert Effective(cols, i);
        }
      }
    }
  }

  /** Each deciding column's group holds that column's score series. */
  lemma {:induction false} BuildFrameSeries(rows: Rows, cols: seq<ColumnInfo>)
    ensures forall i :: 0 <= i < |cols| && Effective(cols, i) ==>
      cols[i].group in BuildFrame(rows, cols).data
      && BuildFrame(rows, cols).data[cols[i].group] == ScoreSeries(rows, cols[i].column, GroupScore(cols[i].group).value)
    decreases |cols|
  {
    var n := |cols|;
    if n > 0 {
      var prefix, x := cols[..n - 1], cols[n - 1];
      var f := BuildFrame(rows, prefix);
      BuildFrameSeries(rows, prefix);
      BuildFrameLabels(rows, prefix);
      EffectiveStep(cols);
      if GroupScore(x.group).Some? {
        assert BuildFrame(rows, cols).data == f.data[x.group := ScoreSeries(rows, x.column, GroupScore(x.group).value)];
      } else {
        assert BuildFrame(rows, cols) == f;
      }
    }
  }

  /** How `Effective` changes when one more column is appended. */
  lemma EffectiveStep(cols: seq<ColumnInfo>)
    requires |cols| > 0
    ensures var n := |cols|;
      && (forall i :: 0 <= i < n - 1 ==> cols[i] == cols[..n - 1][i])
      && (forall i :: 0 <= i < n - 1 ==>
            (Effective(cols, i) <==> Effective(cols[..n - 1], i) && cols[i].group != cols[n - 1].group))
      && (Effective(cols, n - 1) <==> GroupScore(cols[n - 1].group).Some?)
  {
  }

  ghost function FrameCandidates(f: Frame, r: nat, k: nat): set<int>
    requires k <= |f.labels|
  {
    set j | 0 <= j < k && f.Value(f.labels[j], r).Some? :: f.Value(f.labels[j], r).value
  }

  lemma {:induction false} RowMaxOverIsMax(f: Frame, r: nat, k: nat)
    requires k <= |f.labels|
    ensures IsMax(f.RowMaxOver(r, k), FrameCandidates(f, r, k))
  {
    if k > 0 {
      RowMaxOverIsMax(f, r, k - 1);
      var v := f.Value(f.labels[k - 1], r);
      assert FrameCandidates(f, r, k) == FrameCandidates(f, r, k - 1) + if v.Some? then {v.value} else {};
    } else {
      assert FrameCandidates(f, r, k) == {};
    }
  }

  lemma FrameCandidatesAreSpec(sheet: Sheet, cols: seq<ColumnInfo>, r: nat, v: int)
    requires r < |sheet.rows|
    requires var f := BuildFrame(sheet.rows, cols); v in FrameCandidates(f, r, |f.labels|)
    ensures v in SpecCandidates(sheet, cols, r, |cols|)
  {
    var f := BuildFrame(sheet.rows, cols);
    BuildFrameShape(sheet.rows, cols);
    var j :| 0 <= j < |f.labels| && f.Value(f.labels[j], r).Some? && f.Value(f.labels[j], r).value == v;
    var i :| 0 <= i < |cols| && Effective(cols, i) && cols[i].group == f.labels[j];
    assert Candidate(sheet, cols, r, i) == Some(v);
  }

  lemma SpecCandidatesAreFrame(sheet: Sheet, cols: seq<ColumnInfo>, r: nat, v: int)
    requires r < |sheet.rows|
    requires v in SpecCandidates(sheet, cols, r, |cols|)
    ensures var f := BuildFrame(sheet.rows, cols); v in FrameCandidates(f, r, |f.labels|)
  {
    var f := BuildFrame(sheet.rows, cols);
    BuildFrameShape(sheet.rows, cols);
    var i :| 0 <= i < |cols| && Candidate(sheet, cols, r, i).Some? && Candidate(sheet, cols, r, i).value == v;
    var g := cols[i].group;
    assert g in f.data;
    var j :| 0 <= j < |f.labels| && f.labels[j] == g;
    assert f.Value(f.labels[j], r) == Some(v);
  }

  /** `course_df.max(axis=1)` gives each respondent the score `RespondentScore` defines. */
  lemma RowMaxIsRespondentScore(sheet: Sheet, cols: seq<ColumnInfo>, r: nat)
    requires r < |sheet.rows|
    ensures var f := BuildFrame(sheet.rows, cols); f.RowMaxOver(r, |f.labels|) == RespondentScore(sheet, cols, r)
  {
    var f := BuildFrame(sheet.rows, cols);
    RowMaxOverIsMax(f, r, |f.labels|);
    ScoreUpToIsMax(sheet, cols, r, |cols|);
    var frameCands, specCands := FrameCandidates(f, r, |f.labels|), SpecCandidates(sheet, cols, r, |cols|);
    forall v | v in frameCands
      ensures v in specCands
    {
      FrameCandidatesAreSpec(sheet, cols, r, v);
    }
    forall v | v in specCands
      ensures v in frameCands
    {
      SpecCandidatesAreFrame(sheet, cols, r, v);
    }
    assert frameCands == specCands;
  }

  lemma {:induction false} DropNoneIsValidScores(sheet: Sheet, cols: seq<ColumnInfo>, xs: seq<Option<int>>, n: nat)
    requires n <= |xs|
    requires forall r :: 0 <= r < n ==> xs[r] == RespondentScore(sheet, cols, r)
    ensures DropNone(xs[..n]) == ValidScores(sheet, cols, n)
  {
    if n > 0 {
      assert xs[..n][..n - 1] == xs[..n - 1];
      DropNoneIsValidScores(sheet, cols, xs, n - 1);
    }
  }

  /**
   * The body of the per-course loop: assign a score column to `course_df` for
   * every scoring group column of the course, then take the mean of the row
   * maxima that are present; NaN when `course_df` is empty.
   */
  method CourseValue(sheet: Sheet, relevant: seq<ColumnInfo>, course: string) returns (value: Option<real>)
    ensures value == CourseMean(sheet, CourseColumns(relevant, course))
  {
    var cols := CourseColumns(relevant, course);
    var frame := EMPTY_FRAME;
    var i := 0;
    while i < |cols|
      invariant i <= |cols|
      invariant frame == BuildFrame(sheet.rows, cols[..i])
    {
      var info := cols[i];
      var score := GroupScore(info.group);
      if score.Some? {
        frame := frame.Assign(info.group, ScoreSeries(sheet.rows, info.column, score.value));
      }
      assert cols[..i + 1][..i] == cols[..i];
      i := i + 1;
    }
    assert cols[..i] == cols;
    value := FrameValue(frame);
    FrameValueIsCourseMean(sheet, cols);
  }

  /**
   * The course value read off `course_df`: NaN for an empty frame, otherwise
   * the mean of the row maxima that are present (NaN when none is).
   */
  function FrameValue(frame: Frame): Option<real>
  {
    if frame.IsEmpty() then None
    else
      var valid := DropNone(frame.RowMax());
      if |valid| == 0 then None else Some(Mean(valid))
  }

  /** Reading the value off the frame the loop builds gives the course mean over respondents. */
  lemma FrameValueIsCourseMean(sheet: Sheet, cols: seq<ColumnInfo>)
    ensures FrameValue(BuildFrame(sheet.rows, cols)) == CourseMean(sheet, cols)
  {
    var frame := BuildFrame(sheet.rows, cols);
    BuildFrameShape(sheet.rows, cols);
    if !frame.IsEmpty() {
      var respondentScores := frame.RowMax();
      forall r | 0 <= r < |sheet.rows|
        ensures respondentScores[r] == RespondentScore(sheet, cols, r)
      {
        RowMaxIsRespondentScore(sheet, cols, r);
      }
      assert respondentScores[..|sheet.rows|] == respondentScores;
      DropNoneIsValidScores(sheet, cols, respondentScores, |sheet.rows|);
    } else {
      forall r | 0 <= r < |sheet.rows|
        ensures RespondentScore(sheet, cols, r).None?
      {
        RespondentScoreIsMax(sheet, cols, r);
      }
      CourseMeanUndefined(sheet, cols);
    }
  }

  // ---------------------------------------------------------------------------
  // The whole analysis
  // ---------------------------------------------------------------------------

  /** One entry of `course_scores`; `None` stands for NaN. */
  datatype Rating = Rating(course: string, value: Option<real>)

  /** The run stops early when no column is relevant; otherwise it yields one rating per course. */
  datatype Report = NoRelevantColumns | Ratings(ratings: seq<Rating>)

  /**
   * `analyze_survey` from the loaded sheet to the unsorted `course_scores`:
   * classify the columns, group them by course, and rate each course in the
   * order its name first appears.
   */
  method AnalyzeSheet(sheet: Sheet) returns (report: Report)
    ensures report.NoRelevantColumns? <==> RelevantColumns(sheet.headers) == []
    ensures report.Ratings? ==>
      var relevant := RelevantColumns(sheet.headers);
      var courses := Courses(relevant);
      && |report.ratings| == |courses|
      && forall k :: 0 <= k < |courses| ==>
           report.ratings[k] == Rating(courses[k], CourseMean(sheet, CourseColumns(relevant, courses[k])))
    ensures report.Ratings? ==> forall k :: 0 <= k < |report.ratings| && report.ratings[k].value.Some? ==>
      1.0 <= report.ratings[k].value.value <= 3.0
  {
    var relevant := FindRelevantColumns(sheet.headers);
    if |relevant| == 0 {
      return NoRelevantColumns;
    }
    var courses, ids := IndexCourses(relevant);
    var ratings := RateCourses(sheet, relevant, courses);
    RatingsSpec(sheet, relevant, courses);
    report := Report.Ratings(ratings);
  }

  /** One rating per course, in the given order. */
  ghost function Ratings(sheet: Sheet, relevant: seq<ColumnInfo>, courses: seq<string>): seq<Rating>
    decreases |courses|
  {
    if |courses| == 0 then []
    else
      var course := courses[|courses| - 1];
      Ratings(sheet, relevant, courses[..|courses| - 1]) + [Rating(course, CourseMean(sheet, CourseColumns(relevant, course)))]
  }

  /** Rating `k` is course `k` with its course value, and every defined value lies in [1, 3]. */
  lemma {:induction false} RatingsSpec(sheet: Sheet, relevant: seq<ColumnInfo>, courses: seq<string>)
    ensures |Ratings(sheet, relevant, courses)| == |courses|
    ensures forall k :: 0 <= k < |courses| ==>
      Ratings(sheet, relevant, courses)[k] == Rating(courses[k], CourseMean(sheet, CourseColumns(relevant, courses[k])))
    ensures forall k :: 0 <= k < |courses| && Ratings(sheet, relevant, courses)[k].value.Some? ==>
      1.0 <= Ratings(sheet, relevant, courses)[k].value.value <= 3.0
    decreases |courses|
  {
    var n := |courses|;
    if n > 0 {
      var prefix := courses[..n - 1];
      RatingsSpec(sheet, relevant, prefix);
      CourseMeanBounds(sheet, CourseColumns(relevant, courses[n - 1]));
      assert forall k :: 0 <= k < n - 1 ==> courses[k] == prefix[k];
    }
  }

  /** The loop over `unique_courses`: one rating per course, in the given order. */
  method RateCourses(sheet: Sheet, relevant: seq<ColumnInfo>, courses: seq<string>) returns (ratings: seq<Rating>)
    ensures ratings == Ratings(sheet, relevant, courses)
  {
    ratings := [];
    var k := 0;
    while k < |courses|
      invariant k <= |courses|
      invariant ratings == Ratings(sheet, relevant, courses[..k])
    {
      var value := CourseValue(sheet, relevant, courses[k]);
      assert courses[..k + 1][..k] == courses[..k];
      ratings := ratings + [Rating(courses[k], value)];
      k := k + 1;
    }
    assert courses[..k] == courses;
  }
}

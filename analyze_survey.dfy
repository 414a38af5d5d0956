/**
 * The CSV variant (src/analyze_survey.py): row 0 holds question ids, row 1
 * course names, and every data cell of a course column already names the
 * respondent's group (or holds a number). Each scored cell is one
 * observation; observations are grouped by course name into a mean and a
 * count.
 */
module AnalyzeSurvey {
  import opened Wrappers
  import opened Strings
  import opened Stats
  import Analysis

  const MOST := "Most Beneficial"
  const NEUTRAL := "Neutral"
  const LEAST := "Least Beneficial"

  // ---------------------------------------------------------------------------
  // Numbers in cell text
  // ---------------------------------------------------------------------------

  predicate IsDigit(c: char)
  {
    '0' <= c <= '9'
  }

  /** A non-empty run of decimal digits. */
  predicate AllDigits(s: string)
  {
    |s| > 0 && forall i :: 0 <= i < |s| ==> IsDigit(s[i])
  }

  /** The value of a decimal numeral, read from its last digit back. */
  function DigitsValue(s: string): nat
    requires forall i :: 0 <= i < |s| ==> IsDigit(s[i])
  {
    if |s| == 0 then 0
    else
      assert IsDigit(s[|s| - 1]);
      DigitsValue(s[..|s| - 1]) * 10 + (s[|s| - 1] as int - '0' as int)
  }

  /**
   * The integer `float(s)` reads from a cell's text, if any: an optional sign
   * followed by decimal digits. Text starting with anything else is not a number.
   */
  function Number(s: string): (r: Option<int>)
    ensures r.Some? ==> |s| > 0 && (IsDigit(s[0]) || s[0] == '-' || s[0] == '+')
  {
    if |s| > 0 && (s[0] == '-' || s[0] == '+') then
      if AllDigits(s[1..]) then
        var v: int := DigitsValue(s[1..]);
        Some(if s[0] == '-' then -v else v)
      else None
    else if AllDigits(s) then Some(DigitsValue(s))
    else None
  }

  function DigitChar(d: nat): char
    requires d < 10
  {
    ('0' as int + d) as char
  }

  /** The decimal digits of a natural number, most significant first. */
  function Digits(n: nat): (s: string)
    ensures AllDigits(s)
    decreases n
  {
    if n < 10 then [DigitChar(n)] else Digits(n / 10) + [DigitChar(n % 10)]
  }

  /** `str(n)` of an integer. */
  function Decimal(n: int): string
  {
    if n < 0 then "-" + Digits(-n) else Digits(n)
  }

  lemma {:induction false} DigitsValueOfDigits(n: nat)
    ensures DigitsValue(Digits(n)) == n
    decreases n
  {
    if n >= 10 {
      DigitsValueOfDigits(n / 10);
      var s := Digits(n);
      assert s[..|s| - 1] == Digits(n / 10);
    } else {
      assert Digits(n)[..0] == [];
    }
  }

  /** Every integer's decimal text is read back as that integer. */
  lemma NumberOfDecimal(n: int)
    ensures Number(Decimal(n)) == Some(n)
  {
    if n < 0 {
      DigitsValueOfDigits(-n);
      assert Decimal(n)[1..] == Digits(-n);
    } else {
      DigitsValueOfDigits(n);
    }
  }

  // ---------------------------------------------------------------------------
  // Cell scores
  // ---------------------------------------------------------------------------

  /**
   * `map_group_to_score`: a missing cell has no score; text that reads as a
   * number is that number, unchecked; other text is searched for the three
   * group names in priority order; any other text has no score.
   */
  function ScoreOf(val: Option<string>): (r: Option<int>)
    ensures val.None? ==> r.None?
    ensures val.Some? && Number(val.value).Some? ==> r == Number(val.value)
    ensures val.Some? && Number(val.value).None? ==>
      (r.Some? <==> Contains(val.value, MOST) || Contains(val.value, NEUTRAL) || Contains(val.value, LEAST))
    ensures val.Some? && Number(val.value).None? ==> (r == Some(3) <==> Contains(val.value, MOST))
    ensures val.Some? && Number(val.value).None? ==>
      (r == Some(2) <==> !Contains(val.value, MOST) && Contains(val.value, NEUTRAL))
    ensures val.Some? && Number(val.value).None? ==>
      (r == Some(1) <==> !Contains(val.value, MOST) && !Contains(val.value, NEUTRAL) && Contains(val.value, LEAST))
  {
    match val
    case None => None
    case Some(s) =>
      if Number(s).Some? then Number(s)
      else if Contains(s, MOST) then Some(3)
      else if Contains(s, NEUTRAL) then Some(2)
      else if Contains(s, LEAST) then Some(1)
      else None
  }

  /**
   * On the four canonical group names the cell-text scoring agrees with the
   * spreadsheet variant's group scoring (and "Did not take" scores nothing in both).
   */
  lemma LabelsAgree()
    ensures ScoreOf(Some(MOST)) == Analysis.GroupScore(MOST) == Some(3)
    ensures ScoreOf(Some(NEUTRAL)) == Analysis.GroupScore(NEUTRAL) == Some(2)
    ensures ScoreOf(Some(LEAST)) == Analysis.GroupScore(LEAST) == Some(1)
    ensures ScoreOf(Some("Did not take")) == Analysis.GroupScore("Did not take") == None
  {
    MostScoresThree();
    NeutralScoresTwo();
    LeastScoresOne();
    DidNotTakeScoresNothing();
  }

  lemma MostScoresThree()
    ensures ScoreOf(Some(MOST)) == Some(3)
  {
    assert StartsWith(MOST, MOST);
  }

  lemma NeutralScoresTwo()
    ensures ScoreOf(Some(NEUTRAL)) == Some(2)
  {
    ContainsNeedsRoom(NEUTRAL, MOST);
    assert StartsWith(NEUTRAL, NEUTRAL);
  }

  lemma LeastScoresOne()
    ensures ScoreOf(Some(LEAST)) == Some(1)
  {
    assert StartsWith(LEAST, LEAST);
    OnlyLeastInitial(LEAST);
  }

  lemma DidNotTakeScoresNothing()
    ensures ScoreOf(Some("Did not take")) == None
  {
    NoLabelInitial("Did not take");
  }

  /** Helper for `LabelsAgree`: non-numeric text without the initials of the two higher labels scores 1 when it names the lowest. */
  lemma OnlyLeastInitial(s: string)
    requires Number(s).None? && MOST[0] !in s && NEUTRAL[0] !in s && Contains(s, LEAST)
    ensures ScoreOf(Some(s)) == Some(1)
  {
    ContainsNeedsFirst(s, MOST);
    ContainsNeedsFirst(s, NEUTRAL);
  }

  /** Helper for `LabelsAgree`: non-numeric text without any label's initial has no score. */
  lemma NoLabelInitial(s: string)
    requires Number(s).None? && MOST[0] !in s && NEUTRAL[0] !in s && LEAST[0] !in s
    ensures ScoreOf(Some(s)).None?
  {
    ContainsNeedsFirst(s, MOST);
    ContainsNeedsFirst(s, NEUTRAL);
    ContainsNeedsFirst(s, LEAST);
  }

  // ---------------------------------------------------------------------------
  // The raw table and its header rows
  // ---------------------------------------------------------------------------

  /**
   * The fields of `pd.read_csv(header=None)`, row by row: a field's text, or
   * `None` for a missing (NaN) field. A position outside a short row reads as missing.
   */
  type Table = seq<seq<Option<string>>>

  function FieldAt(rows: Table, r: int, col: int): Option<string>
  {
    if 0 <= r < |rows| && 0 <= col < |rows[r]| then rows[r][col] else None
  }

  /** The loaded table: `width` columns. */
  datatype Grid = Grid(width: nat, rows: Table)

  /** `str(val)` of a header field read as text: the text itself, or "nan" when missing. */
  function Render(f: Option<string>): string
  {
    match f
    case None => "nan"
    case Some(s) => s
  }

  /** The column filter: the row-0 id starts with Q35 (Core) or Q76 (Elective). */
  predicate IsRatingId(qid: string)
  {
    StartsWith(qid, "Q35") || StartsWith(qid, "Q76")
  }

  /**
   * A missing id, or one that reads as a number, never passes the filter. So
   * every rated column has a text id, pandas reads that whole column as text,
   * and its row-1 course name is its field's own characters.
   */
  lemma RatedIdIsText(f: Option<string>)
    ensures IsRatingId(Render(f)) ==> f.Some? && Number(f.value).None?
  {
    var s := Render(f);
    if |s| >= 3 {
      assert s[..3][0] == s[0];
    }
  }

  function QuestionId(g: Grid, col: nat): string
  {
    Render(FieldAt(g.rows, 0, col))
  }

  function CourseName(g: Grid, col: nat): string
  {
    Render(FieldAt(g.rows, 1, col))
  }

  // ---------------------------------------------------------------------------
  // Observations
  // ---------------------------------------------------------------------------

  /** One entry of `course_ratings`; `respondent` is the row's position in the raw table. */
  datatype Observation = Observation(respondent: nat, course: string, score: int)

  /** The observations of one column from the data rows 2 .. n - 1. */
  function RowObservations(g: Grid, col: nat, n: nat): seq<Observation>
  {
    if n <= 2 then []
    else
      RowObservations(g, col, n - 1)
        + match ScoreOf(FieldAt(g.rows, n - 1, col))
          case Some(s) => [Observation(n - 1, CourseName(g, col), s)]
          case None => []
  }

  function ColumnObservations(g: Grid, col: nat): seq<Observation>
  {
    if IsRatingId(QuestionId(g, col)) then RowObservations(g, col, |g.rows|) else []
  }

  /** The observations of the columns 0 .. n - 1, column by column. */
  function Observations(g: Grid, n: nat): seq<Observation>
  {
    if n == 0 then [] else Observations(g, n - 1) + ColumnObservations(g, n - 1)
  }

  /** The nested loop of `main` filling `course_ratings`. */
  method CollectRatings(g: Grid) returns (ratings: seq<Observation>)
    ensures ratings == Observations(g, g.width)
  {
    ratings := [];
    var col := 0;
    while col < g.width
      invariant col <= g.width
      invariant ratings == Observations(g, col)
    {
      var qid := QuestionId(g, col);
      if IsRatingId(qid) {
        var found := CollectColumn(g, col);
        ratings := ratings + found;
      }
      col := col + 1;
    }
  }

  /** The inner loop of `main`: the scored data rows of one rating column, top to bottom. */
  method CollectColumn(g: Grid, col: nat) returns (found: seq<Observation>)
    ensures found == RowObservations(g, col, |g.rows|)
  {
    var course := CourseName(g, col);
    found := [];
    var last := if |g.rows| < 2 then 2 else |g.rows|;
    var r := 2;
    while r < |g.rows|
      invariant 2 <= r <= last
      invariant found == RowObservations(g, col, r)
    {
      var score := ScoreOf(FieldAt(g.rows, r, col));
      if score.Some? {
        found := found + [Observation(r, course, score.value)];
      }
      r := r + 1;
    }
    assert RowObservations(g, col, r) == RowObservations(g, col, |g.rows|);
  }

  /** Column `col` yields observation `o`: a rating column, a data row whose cell scores, the row-1 course name. */
  predicate Observes(g: Grid, col: nat, o: Observation)
  {
    && IsRatingId(QuestionId(g, col))
    && 2 <= o.respondent < |g.rows|
    && o.course == CourseName(g, col)
    && ScoreOf(FieldAt(g.rows, o.respondent, col)) == Some(o.score)
  }

  lemma {:induction false} RowObservationsSpec(g: Grid, col: nat, n: nat)
    ensures forall o :: o in RowObservations(g, col, n) <==>
      2 <= o.respondent < n && o.course == CourseName(g, col) && ScoreOf(FieldAt(g.rows, o.respondent, col)) == Some(o.score)
  {
    if n > 2 {
      RowObservationsSpec(g, col, n - 1);
    }
  }

  /** A column's observations are exactly what it yields; a column whose id is not a rating id yields none. */
  lemma ColumnObservationsSpec(g: Grid, col: nat)
    ensures forall o :: o in ColumnObservations(g, col) <==> Observes(g, col, o)
  {
    RowObservationsSpec(g, col, |g.rows|);
  }

  /** Within a column the rows appear in increasing order, so no row is observed twice. */
  lemma {:induction false} RowObservationsOrdered(g: Grid, col: nat, n: nat)
    ensures forall a, b :: 0 <= a < b < |RowObservations(g, col, n)| ==>
      RowObservations(g, col, n)[a].respondent < RowObservations(g, col, n)[b].respondent
  {
    if n > 2 {
      RowObservationsOrdered(g, col, n - 1);
      RowObservationsSpec(g, col, n - 1);
      var earlier, obs := RowObservations(g, col, n - 1), RowObservations(g, col, n);
      forall a, b | 0 <= a < b < |obs|
        ensures obs[a].respondent < obs[b].respondent
      {
        assert obs[a] == earlier[a];
        if b < |earlier| {
          assert obs[b] == earlier[b];
          assert earlier[a].respondent < earlier[b].respondent;
        } else {
          var score := ScoreOf(FieldAt(g.rows, n - 1, col));
          assert score.Some?;
          assert obs == earlier + [Observation(n - 1, CourseName(g, col), score.value)];
          assert earlier[a] in earlier;
          assert earlier[a].respondent < n - 1;
          assert obs[b].respondent == n - 1;
        }
      }
    }
  }

  /**
   * Exactly the (relevant column, data row) pairs whose cell has a score give
   * an observation, with the column's row-1 text as course; other columns give none.
   */
  lemma ObservationsSpec(g: Grid, n: nat)
    ensures forall o :: o in Observations(g, n) <==> exists col :: 0 <= col < n && Observes(g, col, o)
  {
    ObservationsByColumn(g, n);
    forall col | 0 <= col < n
      ensures forall o :: o in ColumnObservations(g, col) <==> Observes(g, col, o)
    {
      ColumnObservationsSpec(g, col);
    }
  }

  /** The observations of columns 0 .. n - 1 are those of each of these columns. */
  lemma {:induction false} ObservationsByColumn(g: Grid, n: nat)
    ensures forall o :: o in Observations(g, n) <==> exists col :: 0 <= col < n && o in ColumnObservations(g, col)
  {
    if n > 0 {
      ObservationsByColumn(g, n - 1);
      var earlier, last := Observations(g, n - 1), ColumnObservations(g, n - 1);
      forall o | o in earlier + last
        ensures exists col :: 0 <= col < n && o in ColumnObservations(g, col)
      {
        if o !in earlier {
          assert o in last;
        }
      }
      forall o, col | 0 <= col < n && o in ColumnObservations(g, col)
        ensures o in earlier + last
      {
        if col < n - 1 {
          assert o in earlier;
        }
      }
    }
  }

  // ---------------------------------------------------------------------------
  // Group-by course: mean and count
  // ---------------------------------------------------------------------------

  /** The scores of the observations of one course, in order. */
  function ScoresFor(obs: seq<Observation>, course: string): seq<int>
    decreases |obs|
  {
    if |obs| == 0 then []
    else
      var last := obs[|obs| - 1];
      ScoresFor(obs[..|obs| - 1], course) + if last.course == course then [last.score] else []
  }

  /** The positions of the observations that name one course. */
  function Naming(obs: seq<Observation>, course: string): set<int>
  {
    set i | 0 <= i < |obs| && obs[i].course == course
  }

  /** A course has as many scores as there are observations naming it. */
  lemma {:induction false} ScoresForCount(obs: seq<Observation>, course: string)
    ensures |ScoresFor(obs, course)| == |Naming(obs, course)|
    decreases |obs|
  {
    var n := |obs|;
    if n > 0 {
      ScoresForCount(obs[..n - 1], course);
      NamingStep(obs, course);
    }
  }

  lemma NamingStep(obs: seq<Observation>, course: string)
    requires |obs| > 0
    ensures var n := |obs|;
      && Naming(obs, course) == Naming(obs[..n - 1], course) + (if obs[n - 1].course == course then {n - 1} else {})
      && n - 1 !in Naming(obs[..n - 1], course)
  {
    var n := |obs|;
    var prefix := obs[..n - 1];
    var extra: set<int> := if obs[n - 1].course == course then {n - 1} else {};
    forall i | i in Naming(obs, course) ensures i in Naming(prefix, course) + extra {
      if i < n - 1 {
        assert prefix[i] == obs[i];
      }
    }
    forall i | i in Naming(prefix, course) + extra ensures i in Naming(obs, course) {
      if i < n - 1 {
        assert prefix[i] == obs[i];
      }
    }
  }

  /** A course has scores exactly when some observation names it. */
  lemma {:induction false} ScoresForNonempty(obs: seq<Observation>, course: string)
    ensures |ScoresFor(obs, course)| > 0 <==> exists o :: o in obs && o.course == course
    decreases |obs|
  {
    var n := |obs|;
    if n > 0 {
      var prefix := obs[..n - 1];
      ScoresForNonempty(prefix, course);
      assert obs == prefix + [obs[n - 1]];
    }
  }

  /** One row of `course_stats`. */
  datatype Stat = Stat(mean: real, count: nat)

  /** The keys of `groupby('Course')`: the courses some observation names. */
  function CourseNames(obs: seq<Observation>): set<string>
  {
    set o | o in obs :: o.course
  }

  /** `mean` and `count` of one course's group. */
  function CourseStat(obs: seq<Observation>, course: string): Stat
    requires course in CourseNames(obs)
  {
    ScoresForNonempty(obs, course);
    Stat(Mean(ScoresFor(obs, course)), |ScoresFor(obs, course)|)
  }

  /**
   * `groupby('Course')['Score'].agg(['mean', 'count'])`: one entry per course
   * that some observation names.
   */
  function Summarise(obs: seq<Observation>): (stats: map<string, Stat>)
    ensures forall c :: c in stats <==> exists o :: o in obs && o.course == c
  {
    map c | c in CourseNames(obs) :: CourseStat(obs, c)
  }

  /** A course's entry counts the observations that name it, and its mean is the mean of their scores. */
  lemma SummariseSpec(obs: seq<Observation>, course: string)
    requires course in Summarise(obs)
    ensures Summarise(obs)[course].count == |Naming(obs, course)|
    ensures Summarise(obs)[course].count > 0
    ensures Summarise(obs)[course].mean == Mean(ScoresFor(obs, course))
  {
    ScoresForCount(obs, course);
    ScoresForNonempty(obs, course);
  }

  /**
   * The positions (column, data row) among columns 0 .. n - 1 that give an
   * observation of `course`: a rated column with that row-1 name and a cell that scores.
   */
  function ScoredCells(g: Grid, n: nat, course: string): set<(nat, nat)>
  {
    set col: nat, r: nat | col < n && 2 <= r < |g.rows| && Scored(g, col, course, r) :: (col, r)
  }

  /** The positions of `ScoredCells` in column `col`, among the data rows below `m`. */
  function ColumnCells(g: Grid, col: nat, course: string, m: nat): set<(nat, nat)>
  {
    if m <= 2 then {}
    else
      ColumnCells(g, col, course, m - 1)
        + if Scored(g, col, course, m - 1) then {(col, m - 1)} else {}
  }

  /** Cell (`r`, `col`) gives an observation of `course`. */
  predicate Scored(g: Grid, col: nat, course: string, r: nat)
  {
    IsRatingId(QuestionId(g, col)) && CourseName(g, col) == course && ScoreOf(FieldAt(g.rows, r, col)).Some?
  }

  lemma {:induction false} ColumnCellsMembers(g: Grid, col: nat, course: string, m: nat)
    ensures forall x :: x in ColumnCells(g, col, course, m) <==> x.0 == col && 2 <= x.1 < m && Scored(g, col, course, x.1)
  {
    if m > 2 {
      ColumnCellsMembers(g, col, course, m - 1);
    }
  }

  /**
   * No collapsing: a course is observed once per scored cell of its rated
   * columns, so the same respondent answering in two columns of one course
   * counts twice.
   */
  lemma ObservationsCount(g: Grid, n: nat, course: string)
    ensures |Naming(Observations(g, n), course)| == |ScoredCells(g, n, course)|
  {
    ScoresForCount(Observations(g, n), course);
    ObservationScoresCount(g, n, course);
  }

  /**
   * One observation per scored cell: an observation occurs in the list once
   * for each rated column that yields it (each column at most once, from the
   * row it names).
   */
  lemma ObservationMultiplicity(g: Grid, n: nat, o: Observation)
    ensures multiset(Observations(g, n))[o] == |ObservingColumns(g, n, o)|
  {
    OccurrencesIsMultiplicity(Observations(g, n), o);
    ObservationOccurrences(g, n, o);
  }

  /** How often `o` occurs in `obs`. */
  function Occurrences(obs: seq<Observation>, o: Observation): nat
    decreases |obs|
  {
    if |obs| == 0 then 0
    else Occurrences(obs[..|obs| - 1], o) + if obs[|obs| - 1] == o then 1 else 0
  }

  lemma {:induction false} OccurrencesIsMultiplicity(obs: seq<Observation>, o: Observation)
    ensures multiset(obs)[o] == Occurrences(obs, o)
    decreases |obs|
  {
    if |obs| > 0 {
      var prefix := obs[..|obs| - 1];
      OccurrencesIsMultiplicity(prefix, o);
      assert obs == prefix + [obs[|obs| - 1]];
      assert multiset(obs) == multiset(prefix) + multiset{obs[|obs| - 1]};
    }
  }

  lemma {:induction false} OccurrencesAppend(a: seq<Observation>, b: seq<Observation>, o: Observation)
    ensures Occurrences(a + b, o) == Occurrences(a, o) + Occurrences(b, o)
    decreases |b|
  {
    if |b| == 0 {
      assert a + b == a;
    } else {
      OccurrencesAppend(a, b[..|b| - 1], o);
      assert (a + b)[..|a + b| - 1] == a + b[..|b| - 1];
    }
  }

  lemma {:induction false} ObservationOccurrences(g: Grid, n: nat, o: Observation)
    ensures Occurrences(Observations(g, n), o) == |ObservingColumns(g, n, o)|
  {
    if n > 0 {
      ObservationOccurrences(g, n - 1, o);
      OccurrencesStep(g, n, o);
      ObservingColumnsCount(g, n, o);
    }
  }

  lemma OccurrencesStep(g: Grid, n: nat, o: Observation)
    requires n > 0
    ensures Occurrences(Observations(g, n), o) == Occurrences(Observations(g, n - 1), o) + Occurrences(ColumnObservations(g, n - 1), o)
  {
    OccurrencesAppend(Observations(g, n - 1), ColumnObservations(g, n - 1), o);
  }

  lemma ObservingColumnsCount(g: Grid, n: nat, o: Observation)
    requires n > 0
    ensures |ObservingColumns(g, n, o)| == |ObservingColumns(g, n - 1, o)| + Occurrences(ColumnObservations(g, n - 1), o)
  {
    ColumnOccurrences(g, n - 1, o);
    ObservingColumnsStep(g, n, o);
  }

  lemma ObservingColumnsStep(g: Grid, n: nat, o: Observation)
    requires n > 0
    ensures |ObservingColumns(g, n, o)| == |ObservingColumns(g, n - 1, o)| + if Observes(g, n - 1, o) then 1 else 0
  {
    ObservingColumnsBelow(g, n - 1, o);
    CardinalityStep(ObservingColumns(g, n - 1, o), ObservingColumns(g, n, o), n - 1, Observes(g, n - 1, o));
  }

  /** The columns among 0 .. n - 1 that yield observation `o`. */
  function ObservingColumns(g: Grid, n: nat, o: Observation): set<nat>
  {
    if n == 0 then {}
    else ObservingColumns(g, n - 1, o) + if Observes(g, n - 1, o) then {n - 1} else {}
  }

  lemma {:induction false} ObservingColumnsBelow(g: Grid, n: nat, o: Observation)
    ensures forall col :: col in ObservingColumns(g, n, o) ==> col < n
  {
    if n > 0 {
      ObservingColumnsBelow(g, n - 1, o);
    }
  }

  lemma {:induction false} ObservingColumnsMembers(g: Grid, n: nat, o: Observation)
    ensures forall col: nat :: col in ObservingColumns(g, n, o) <==> col < n && Observes(g, col, o)
  {
    if n > 0 {
      ObservingColumnsMembers(g, n - 1, o);
    }
  }

  /** A column yields `o` once if it yields it at all: from the row `o` names. */
  lemma ColumnOccurrences(g: Grid, col: nat, o: Observation)
    ensures Occurrences(ColumnObservations(g, col), o) == if Observes(g, col, o) then 1 else 0
  {
    RowOccurrences(g, col, |g.rows|, o);
  }

  lemma {:induction false} RowOccurrences(g: Grid, col: nat, m: nat, o: Observation)
    ensures Occurrences(RowObservations(g, col, m), o) ==
      if 2 <= o.respondent < m && o.course == CourseName(g, col) && ScoreOf(FieldAt(g.rows, o.respondent, col)) == Some(o.score) then 1 else 0
  {
    if m > 2 {
      RowOccurrences(g, col, m - 1, o);
      RowOccurrencesStep(g, col, m, o);
    }
  }

  lemma RowOccurrencesStep(g: Grid, col: nat, m: nat, o: Observation)
    requires m > 2
    ensures Occurrences(RowObservations(g, col, m), o) == Occurrences(RowObservations(g, col, m - 1), o)
      + if o.respondent == m - 1 && o.course == CourseName(g, col) && ScoreOf(FieldAt(g.rows, m - 1, col)) == Some(o.score) then 1 else 0
  {
    var earlier := RowObservations(g, col, m - 1);
    var score := ScoreOf(FieldAt(g.rows, m - 1, col));
    if score.Some? {
      var found := Observation(m - 1, CourseName(g, col), score.value);
      assert RowObservations(g, col, m) == earlier + [found];
      assert (earlier + [found])[..|earlier|] == earlier;
    } else {
      assert RowObservations(g, col, m) == earlier + [];
      assert earlier + [] == earlier;
    }
  }

  /** `count` of a course's entry in the run's statistics is the number of its scored cells. */
  lemma SummariseCountsCells(g: Grid, course: string)
    requires course in Summarise(Observations(g, g.width))
    ensures Summarise(Observations(g, g.width))[course].count == |ScoredCells(g, g.width, course)|
  {
    SummariseSpec(Observations(g, g.width), course);
    ObservationsCount(g, g.width, course);
  }

  lemma {:induction false} ObservationScoresCount(g: Grid, n: nat, course: string)
    ensures |ScoresFor(Observations(g, n), course)| == |ScoredCells(g, n, course)|
  {
    if n > 0 {
      ObservationScoresCount(g, n - 1, course);
      ObservationScoresStep(g, n, course);
      ScoredCellsCount(g, n, course);
    } else {
      NoColumnsNoCells(g, course);
    }
  }

  lemma NoColumnsNoCells(g: Grid, course: string)
    ensures ScoredCells(g, 0, course) == {}
  {
  }

  lemma ObservationScoresStep(g: Grid, n: nat, course: string)
    requires n > 0
    ensures |ScoresFor(Observations(g, n), course)|
      == |ScoresFor(Observations(g, n - 1), course)| + |ColumnCells(g, n - 1, course, |g.rows|)|
  {
    ScoresOfColumnsStep(g, n, course);
    ColumnScoresCount(g, n - 1, course);
  }

  lemma ScoresOfColumnsStep(g: Grid, n: nat, course: string)
    requires n > 0
    ensures ScoresFor(Observations(g, n), course) == ScoresFor(Observations(g, n - 1), course) + ScoresFor(ColumnObservations(g, n - 1), course)
  {
    ScoresForAppend(Observations(g, n - 1), ColumnObservations(g, n - 1), course);
  }

  lemma ScoredCellsCount(g: Grid, n: nat, course: string)
    requires n > 0
    ensures |ScoredCells(g, n, course)| == |ScoredCells(g, n - 1, course)| + |ColumnCells(g, n - 1, course, |g.rows|)|
  {
    ScoredCellsStep(g, n, course);
    DisjointCardinality(ScoredCells(g, n - 1, course), ColumnCells(g, n - 1, course, |g.rows|));
  }

  lemma ScoredCellsStep(g: Grid, n: nat, course: string)
    requires n > 0
    ensures ScoredCells(g, n, course) == ScoredCells(g, n - 1, course) + ColumnCells(g, n - 1, course, |g.rows|)
    ensures ScoredCells(g, n - 1, course) !! ColumnCells(g, n - 1, course, |g.rows|)
  {
    ColumnCellsMembers(g, n - 1, course, |g.rows|);
  }

  lemma ColumnScoresCount(g: Grid, col: nat, course: string)
    ensures |ScoresFor(ColumnObservations(g, col), course)| == |ColumnCells(g, col, course, |g.rows|)|
  {
    if IsRatingId(QuestionId(g, col)) {
      RowScoresCount(g, col, course, |g.rows|);
    } else {
      ColumnCellsMembers(g, col, course, |g.rows|);
      assert ColumnCells(g, col, course, |g.rows|) == {};
    }
  }

  lemma {:induction false} RowScoresCount(g: Grid, col: nat, course: string, m: nat)
    requires IsRatingId(QuestionId(g, col))
    ensures |ScoresFor(RowObservations(g, col, m), course)| == |ColumnCells(g, col, course, m)|
  {
    if m > 2 {
      RowScoresCount(g, col, course, m - 1);
      RowScoresStep(g, col, course, m);
      ColumnCellsMembers(g, col, course, m - 1);
      CardinalityStep(ColumnCells(g, col, course, m - 1), ColumnCells(g, col, course, m), (col, m - 1), Scored(g, col, course, m - 1));
    }
  }

  lemma RowScoresStep(g: Grid, col: nat, course: string, m: nat)
    requires m > 2
    ensures ScoresFor(RowObservations(g, col, m), course) == ScoresFor(RowObservations(g, col, m - 1), course)
      + (if CourseName(g, col) == course && ScoreOf(FieldAt(g.rows, m - 1, col)).Some? then [ScoreOf(FieldAt(g.rows, m - 1, col)).value] else [])
  {
    var earlier := RowObservations(g, col, m - 1);
    var score := ScoreOf(FieldAt(g.rows, m - 1, col));
    if score.Some? {
      var obs := earlier + [Observation(m - 1, CourseName(g, col), score.value)];
      assert RowObservations(g, col, m) == obs;
      assert obs[..|obs| - 1] == earlier;
    } else {
      assert RowObservations(g, col, m) == earlier + [];
      assert earlier + [] == earlier;
    }
  }

  lemma DisjointCardinality<T>(a: set<T>, b: set<T>)
    requires a !! b
    ensures |a + b| == |a| + |b|
  {
    assert a * b == {};
  }

  lemma CardinalityStep<T>(before: set<T>, after: set<T>, x: T, added: bool)
    requires after == before + (if added then {x} else {}) && x !in before
    ensures |after| == |before| + (if added then 1 else 0)
  {
  }

  lemma {:induction false} ScoresForAppend(a: seq<Observation>, b: seq<Observation>, course: string)
    ensures ScoresFor(a + b, course) == ScoresFor(a, course) + ScoresFor(b, course)
    decreases |b|
  {
    if |b| == 0 {
      assert a + b == a;
    } else {
      ScoresForAppend(a, b[..|b| - 1], course);
      assert (a + b)[..|a + b| - 1] == a + b[..|b| - 1];
    }
  }

  /**
   * When no data cell of a rated column reads as a number, every course mean
   * lies in [1, 3]; numbers are not range-checked.
   */
  lemma TextOnlyMeansBounded(g: Grid, course: string)
    requires forall r, col: nat :: 2 <= r && col < g.width && IsRatingId(QuestionId(g, col)) && FieldAt(g.rows, r, col).Some? ==> Number(FieldAt(g.rows, r, col).value).None?
    requires course in Summarise(Observations(g, g.width))
    ensures 1.0 <= Summarise(Observations(g, g.width))[course].mean <= 3.0
  {
    var obs := Observations(g, g.width);
    SummariseSpec(obs, course);
    ScoresForNonempty(obs, course);
    TextOnlyScoresInRange(g);
    ScoresForInRange(obs, course);
    MeanBounds(ScoresFor(obs, course), 1, 3);
  }

  lemma TextOnlyScoresInRange(g: Grid)
    requires forall r, col: nat :: 2 <= r && col < g.width && IsRatingId(QuestionId(g, col)) && FieldAt(g.rows, r, col).Some? ==> Number(FieldAt(g.rows, r, col).value).None?
    ensures forall k :: 0 <= k < |Observations(g, g.width)| ==> 1 <= Observations(g, g.width)[k].score <= 3
  {
    var obs := Observations(g, g.width);
    ObservationsSpec(g, g.width);
    forall k | 0 <= k < |obs|
      ensures 1 <= obs[k].score <= 3
    {
      assert obs[k] in obs;
    }
  }

  lemma {:induction false} ScoresForInRange(obs: seq<Observation>, course: string)
    requires forall k :: 0 <= k < |obs| ==> 1 <= obs[k].score <= 3
    ensures forall k :: 0 <= k < |ScoresFor(obs, course)| ==> 1 <= ScoresFor(obs, course)[k] <= 3
    decreases |obs|
  {
    if |obs| > 0 {
      ScoresForInRange(obs[..|obs| - 1], course);
    }
  }

  /** Two Q35/Q76 columns naming one course; the single data row answers "Most Beneficial" and 2. */
  const SAMPLE := Grid(2, [[Some("Q35_1"), Some("Q76_4")], [Some("Tax"), Some("Tax")], [Some(MOST), Some("2")]])

  /**
   * Both cells of SAMPLE's data row are observations (one respondent is not
   * collapsed to a single score per course), and the course mean is 2.5.
   */
  lemma SameCourseCountedPerColumn()
    ensures Observations(SAMPLE, 2) == [Observation(2, "Tax", 3), Observation(2, "Tax", 2)]
    ensures ScoresFor(Observations(SAMPLE, 2), "Tax") == [3, 2]
    ensures Mean(ScoresFor(Observations(SAMPLE, 2), "Tax")) == 2.5
  {
    SampleObservations();
    SampleScores();
    MeanThreeTwo();
  }

  lemma SampleScores()
    ensures ScoresFor([Observation(2, "Tax", 3), Observation(2, "Tax", 2)], "Tax") == [3, 2]
  {
    var obs := [Observation(2, "Tax", 3), Observation(2, "Tax", 2)];
    assert obs[..1] == [Observation(2, "Tax", 3)];
    assert obs[..1][..0] == [];
  }

  lemma SampleObservations()
    ensures Observations(SAMPLE, 2) == [Observation(2, "Tax", 3), Observation(2, "Tax", 2)]
  {
    SampleFirstColumn();
    SampleSecondColumn();
    assert Observations(SAMPLE, 1) == [Observation(2, "Tax", 3)];
  }

  lemma SampleFirstColumn()
    ensures ColumnObservations(SAMPLE, 0) == [Observation(2, "Tax", 3)]
  {
    MostScoresThree();
    assert IsRatingId(QuestionId(SAMPLE, 0)) by { assert "Q35_1"[..3] == "Q35"; }
    assert ScoreOf(FieldAt(SAMPLE.rows, 2, 0)) == Some(3);
    assert CourseName(SAMPLE, 0) == "Tax";
    assert |SAMPLE.rows| == 3;
    assert RowObservations(SAMPLE, 0, 2) == [];
    assert RowObservations(SAMPLE, 0, 3) == [Observation(2, "Tax", 3)];
  }

  lemma SampleSecondColumn()
    ensures ColumnObservations(SAMPLE, 1) == [Observation(2, "Tax", 2)]
  {
    assert IsRatingId(QuestionId(SAMPLE, 1)) by { assert "Q76_4"[..3] == "Q76"; }
    assert ScoreOf(FieldAt(SAMPLE.rows, 2, 1)) == Some(2);
    assert CourseName(SAMPLE, 1) == "Tax";
    assert |SAMPLE.rows| == 3;
    assert RowObservations(SAMPLE, 1, 2) == [];
    assert RowObservations(SAMPLE, 1, 3) == [Observation(2, "Tax", 2)];
  }

  // ---------------------------------------------------------------------------
  // The whole run
  // ---------------------------------------------------------------------------

  /**
   * A table without its two header rows is not processed (the row-1 lookup
   * fails; an empty file does not load); without observations the run ends
   * before any statistics.
   */
  datatype Outcome = TooFewRows | NoRatings | Rankings(stats: map<string, Stat>)

  /** `main` from the loaded table to the unsorted `course_stats`. */
  method Run(g: Grid) returns (outcome: Outcome)
    ensures outcome.TooFewRows? <==> |g.rows| < 2
    ensures outcome.NoRatings? <==> |g.rows| >= 2 && Observations(g, g.width) == []
    ensures outcome.Rankings? ==> outcome.stats == Summarise(Observations(g, g.width))
  {
    if |g.rows| < 2 {
      return TooFewRows;
    }
    var ratings := CollectRatings(g);
    if |ratings| == 0 {
      return NoRatings;
    }
    outcome := Rankings(Summarise(ratings));
  }
}

# Course-ranking survey analysis, modelled in Dafny

The repository ranks the courses of a graduate programme from an exit
survey. Each respondent put every course into one of three groups:
"Most Beneficial" (score 3), "Neutral" (2) and "Least Beneficial" (1).
They could also say "Did not take", which counts for nothing. A course's
rating is the mean of its scores.

There are two scripts, and this project models the core of each.

- `src/analysis.py` reads the spreadsheet export.
  - Each column carries two header rows: the question text and the
    survey tool's ImportId.
  - A column is relevant when its text carries "CORE" or "Elective" and
    matches ` - Ranks - <group> - <course> - Rank`.
  - A respondent's group for a course is read from WHICH of the course's
    group columns holds a value for them, not from the value itself.
  - The course value is the mean over respondents who have a score. It is
    NaN when no respondent has one.
- `src/analyze_survey.py` reads the CSV export.
  - Row 0 holds question ids and row 1 holds course names.
  - A field of the CSV is its text, or missing. A rated column's id is not
    a number, so pandas reads the whole column as text, and its course name
    is the field's own characters.
  - Only columns whose id starts with `Q35` (Core) or `Q76` (Elective)
    are rated.
  - Every scored data cell becomes one observation (respondent, course,
    score). A cell scores when it is numeric, or when its text names a
    group; the names are tried in the order Most, Neutral, Least.
  - The observations are grouped by course into a mean and a count.

The modules:

- `Wrappers` holds `Option`.
- `Strings` is Python's substring test (`in`, `startswith`).
- `Cells` is a spreadsheet cell (analysis.py): missing, numeric, or text.
- `Stats` has the pandas reductions, which skip missing values: sum,
  mean, the pairwise `max`, and `dropna`.
- `RanksPattern` is the one regular expression. It is written as the
  deterministic lazy search `re.search` performs.
- `Analysis` is `src/analysis.py`.
- `AnalyzeSurvey` is `src/analyze_survey.py`.

Python loops are methods. Each has a `while` loop and is proved equal to
a specification function. The vectorised pandas steps are functions:
`notna`, the row-wise `max`, `dropna`, `mean` and `groupby().agg`.
Scores are integers and means are exact reals. A missing value (NaN) is
`None`.

## Model

| member | source | states |
|---|---|---|
| Analysis.ParseHeader | src/analysis.py:21-46 | A record is only produced for the column it was asked about, and carries that column's ImportId. |
| Analysis.ParseHeaderSound | src/analysis.py:24-45 | When a column is classified, its text carries "CORE" or "Elective". Its category is Core exactly when "CORE" occurs, so Core wins when both occur. Its text contains ` - Ranks - <group> - <course> - Rank` with the extracted group and course, and neither of them holds a line feed. |
| Analysis.ParseHeaderNeedsRanks | src/analysis.py:36-46 | A header without ` - Ranks - ` is never relevant, whatever markers it carries. |
| Analysis.ParseHeaderComplete | src/analysis.py:27-45 | Converse of the above: a marker plus any line-feed-free occurrence of the pattern makes the column relevant. |
| RanksPattern.SearchSound | src/analysis.py:36-39 | A successful search returns two groups that rebuild an occurrence of the whole pattern in the text; neither group holds a line feed. |
| RanksPattern.SearchComplete | src/analysis.py:36-37 | Any occurrence of the pattern, with line-feed-free groups, makes the search succeed. |
| RanksPattern.SearchNeedsLead | src/analysis.py:36-37 | Text without the literal ` - Ranks - ` never matches. |
| Analysis.FindRelevantColumns | src/analysis.py:49-53 | The loop's result equals `RelevantColumns`, the parse of each header in column order with the failures dropped. |
| Analysis.RelevantColumnsSpec | src/analysis.py:49-53 | Every column that parses is kept. Every kept record is the parse of its own column. The kept records are in strictly increasing column order, so no column is kept twice. |
| Analysis.IndexCourses | src/analysis.py:65-72 | The `unique_courses` loop. Its key order equals `Courses` and its keys are exactly those courses. Each course maps to `ImportIds`, the ImportIds of that course's columns in column order. |
| Analysis.CoursesSpec | src/analysis.py:65-72 | `Courses` lists each course once, and exactly the courses some relevant column names. |
| Analysis.ImportIdsOfAbsent | src/analysis.py:70-72 | A course that no relevant column names has no ImportIds. |
| Analysis.ImportIdsCount | src/analysis.py:66-72 | A course has as many ImportIds as there are relevant columns of that course. |
| Analysis.GroupScore | src/analysis.py:112-120 | A group scores only when it is one of the three group names, and every score lies in 1..3. "Did not take" and unknown labels score nothing. |
| Analysis.CourseColumnsSpec | src/analysis.py:96 | A course's column list holds exactly the relevant columns of that course. |
| Analysis.RespondentScoreIsMax | src/analysis.py:108-135 | A respondent's score is the largest score among the deciding group columns where their cell is present, whatever the cell holds; it is missing exactly when no such column exists. A column decides when it scores and no later column of the course has the same group label. |
| Analysis.DistinctGroupsScoreIsMax | src/analysis.py:108-135 | When a course has no repeated group label, the score is the maximum over all its scoring columns where the cell is present. It is missing exactly when there is none. |
| Analysis.RepeatedGroupReplaced | src/analysis.py:130 | An example where two columns of one course share a group label. The later, empty column overwrites the earlier, filled one, so the respondent gets no score and the course value is NaN. |
| Analysis.RanksIgnored | src/analysis.py:123-126 | Two sheets whose cells are present in the same places give the same course value. Only presence counts, not the rank number. |
| Analysis.CourseMeanBounds | src/analysis.py:135-138 | A defined course value lies within [1, 3]. |
| Analysis.CourseMeanUndefined | src/analysis.py:134-140 | The course value is NaN exactly when no respondent has a score. |
| Analysis.NoScoringColumnsUndefined | src/analysis.py:119-140 | A course whose columns all carry non-scoring groups (for example only "Did not take") has value NaN. |
| Analysis.TwoRespondentsScenario | src/analysis.py:106-138 | Example: respondent A marked Most Beneficial and respondent B marked Neutral, so the course value is (3 + 2) / 2 = 2.5. |
| Analysis.BuildFrameShape | src/analysis.py:106-130 | After the column loop, `course_df` has one column per deciding group, and no others. Its labels are its keys. It has one row per respondent. Each column holds the score where that respondent's cell is present. |
| Analysis.RowMaxIsRespondentScore | src/analysis.py:135 | `course_df.max(axis=1)` at a respondent's row equals that respondent's specified score. |
| Analysis.FrameValueIsCourseMean | src/analysis.py:134-140 | Reading the value off the frame the loop builds gives the mean over respondents who have a score, and NaN for an empty frame or when no respondent scored. |
| Analysis.CourseValue | src/analysis.py:94-140 | The per-course loop body returns `CourseMean` of that course's columns. |
| Analysis.RateCourses | src/analysis.py:94-140 | The loop over the courses returns `Ratings`: one rating per course, in the given order. |
| Analysis.RatingsSpec | src/analysis.py:94-140 | `Ratings` has one entry per course. Entry k pairs course k with that course's mean, and every defined value lies in [1, 3]. |
| Analysis.AnalyzeSheet | src/analysis.py:49-140 | The run stops with no result exactly when no column is relevant. Otherwise it yields one rating per course, in the order the course first appears, each equal to that course's mean, with every defined value in [1, 3]. |
| Stats.Mean | src/analysis.py:138 | The mean times the count is the sum. |
| Stats.MeanBounds | src/analysis.py:138 | A mean lies between any bounds of its values. |
| Stats.OptMax | src/analysis.py:135 | pandas `max` with NaN skipped. It is missing exactly when both are missing; otherwise it is one of the present values and at least every present value. |
| Stats.DropNoneMembers | src/analysis.py:137 | `dropna` keeps exactly the present values. |
| Strings.ContainsIff | src/analysis.py:27-28 | The substring test holds exactly when the needle starts at some position of the text. |
| AnalyzeSurvey.Number | src/analyze_survey.py:22-23 | Only text that starts with a digit or a sign reads as a number. |
| AnalyzeSurvey.NumberOfDecimal | src/analyze_survey.py:22-23 | The decimal text of every integer reads back as that integer. |
| AnalyzeSurvey.ScoreOf | src/analyze_survey.py:16-36 | A missing cell has no score, and text that reads as a number is that number. Other text scores 3 exactly when it contains "Most Beneficial". It scores 2 exactly when it contains "Neutral" but not the former, and 1 exactly when it contains "Least Beneficial" but neither of the others. Any other text has no score. |
| AnalyzeSurvey.LabelsAgree | src/analyze_survey.py:28-36 | On the four group names, the CSV cell scoring agrees with the spreadsheet's group scoring (3, 2, 1, none). |
| AnalyzeSurvey.RatedIdIsText | src/analyze_survey.py:65-69 | An id passes the Q35/Q76 filter only when it is present and does not read as a number. A missing id renders as "nan". |
| AnalyzeSurvey.CollectRatings | src/analyze_survey.py:57-81 | The nested loop's observation list equals `Observations`: column by column, then data row by data row. |
| AnalyzeSurvey.CollectColumn | src/analyze_survey.py:72-81 | The inner loop over one column's data rows returns `RowObservations` of all its rows. |
| AnalyzeSurvey.RowObservationsSpec | src/analyze_survey.py:72-81 | The observations from a column's rows are exactly the data rows whose cell scores, each with the row-1 course name and that score. |
| AnalyzeSurvey.ColumnObservationsSpec | src/analyze_survey.py:64-81 | A column yields exactly the observations `Observes` describes. A column whose id is not Q35/Q76 yields none. |
| AnalyzeSurvey.RowObservationsOrdered | src/analyze_survey.py:74-81 | Within a column, observations appear in increasing row order, so no respondent is observed twice per column. |
| AnalyzeSurvey.ObservationsByColumn | src/analyze_survey.py:64-81 | The observations of the first n columns are exactly the observations of each of those columns. |
| AnalyzeSurvey.ObservationsSpec | src/analyze_survey.py:64-81 | An observation is collected exactly when some rated column and some data row produce it. |
| AnalyzeSurvey.ObservationMultiplicity | src/analyze_survey.py:64-81 | Each observation occurs in the list exactly as many times as there are rated columns that yield it. Each such column contributes once, from the data row the observation names. So the list holds exactly one observation per scored (rated column, data row) pair, none dropped and none doubled. |
| AnalyzeSurvey.ObservingColumnsMembers | src/analyze_survey.py:64-81 | The columns counted by `ObservingColumns` are exactly the columns below n that yield the observation. |
| AnalyzeSurvey.ObservationsCount | src/analyze_survey.py:64-81 | Per course, nothing is collapsed: a course has exactly as many observations as there are scored cells (rated column with that row-1 name, data row) for it. A respondent who answers in two columns of one course counts twice. |
| AnalyzeSurvey.ScoresForCount | src/analyze_survey.py:92 | A course has as many scores as there are observations naming it. |
| AnalyzeSurvey.ScoresForNonempty | src/analyze_survey.py:92 | A course has scores exactly when some observation names it. |
| AnalyzeSurvey.Summarise | src/analyze_survey.py:92 | `groupby('Course')` has exactly one key per course that some observation names. |
| AnalyzeSurvey.SummariseSpec | src/analyze_survey.py:92 | A course's entry counts the observations naming it. The count is positive, and the mean is the mean of their scores. |
| AnalyzeSurvey.SummariseCountsCells | src/analyze_survey.py:64-92 | The `count` of a course's statistics is the number of its scored cells. |
| AnalyzeSurvey.TextOnlyMeansBounded | src/analyze_survey.py:22-34 | When no data cell of a rated column reads as a number, every course mean lies within [1, 3]. Headers and unrated columns may hold anything. Numbers are taken unchecked. |
| AnalyzeSurvey.SameCourseCountedPerColumn | src/analyze_survey.py:72-92 | Example: two rated columns name one course. One respondent answers "Most Beneficial" in one and 2 in the other, giving two observations, scores [3, 2] and mean 2.5. |
| AnalyzeSurvey.Run | src/analyze_survey.py:38-92 | With fewer than two rows there is no result. With no observation the run reports that. Otherwise the statistics are `Summarise` of the collected observations. |

## Left out

- Loading: `pd.read_excel`, `pd.read_csv`, `os.path.exists` and the file paths are left out. The model starts from the loaded table (`Sheet`, `Grid`); a missing file is not modelled.
- Output: every `print` (the audit trail, the mapping table, the rankings), `os.makedirs` and the matplotlib bar chart are left out. They are output only.
- The ImportId lists `unique_courses` builds are modelled (`IndexCourses`), but they are only printed; nothing else depends on them.
- Sorting by value (`sort_values(ascending=False)` in both scripts) is left out. pandas promises no order among equal values, so the model returns the ratings in first-appearance order (analysis.py) and the statistics as a map (analyze_survey.py).
- Floating point is left out. Scores are integers and means are exact reals, with no rounding. In the spreadsheet, `Num(n)` stands for a numeric cell; only its presence matters there.
- AnalyzeSurvey.Number: `float()` also accepts a decimal point, an exponent, surrounding whitespace, underscores between digits, "inf" and "nan". The model reads only an optional sign followed by decimal digits. Other numeric text is treated as text, so it scores only if it contains a group name, whereas the source would score it as its number.
- Regular expressions are not modelled in general; only the one pattern is.
- AnalyzeSurvey.Render: when pandas reads a column as numbers, `str()` of its header cell gives the number's own rendering ("101" for an integer column, "101.0" for a float column), not the field's text. The model renders the field's text. `RatedIdIsText` shows that such an id never passes the Q35/Q76 filter, so no observation differs.
- analysis.py addresses a column by its two-row header tuple. The model addresses it by position, so two columns with identical header tuples are not distinguished the way pandas would.
- AnalyzeSurvey.Run: a table with fewer than two rows makes the source fail at the row-1 lookup (or at loading an empty file). The model reports this as the outcome `TooFewRows`.
- Some behaviours of the code a reader might not expect are modelled as written:
  - src/analysis.py:55-59 reports only how many columns were found. Columns that fail the header test are dropped without being counted.
  - src/analysis.py:132-135 takes the row-wise max. A respondent who put one course in several groups is not flagged, and the highest score wins.
  - src/analyze_survey.py:64-81 counts every scored cell. That includes two columns that name the same course.
  - src/analysis.py:130 assigns `course_df[group]`. A later column with the same course and group label replaces the earlier one (see `RepeatedGroupReplaced`).
  - src/analyze_survey.py:22-23 takes every number `float()` reads as a score, with no range check.

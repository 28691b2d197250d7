# Gaokao score processing — a Dafny model

This project models the two score-processing scripts of a gaokao (college
entrance exam) analysis tool, and proves properties of the model.

- `scripts/apply_zhejiang_fufen.py` recomputes the graded score ("赋分") of
  each of the seven elective subjects. It follows Zhejiang's "5 grades, 20
  levels" rule. The non-null raw scores of a subject are ranked from high to
  low, with ties broken by row order. The rank fraction `(rank-1)/n` is placed
  among twenty cumulative ceilings (3%, 6%, …, 100%) to give a level from 1 to
  20. Inside each level, the group's raw range `[s1, s2]` is mapped linearly
  onto the level's target range (97–100, 94–96, …, 40–42). The result is
  rounded half up and clipped to [40, 100]. A group where every raw score is
  equal gets the middle of its range.
- `scripts/enforce_exam_rules.py` normalises a score table:
  - it drops the columns whose name starts with `Unnamed`;
  - it fails when one of the three core columns (语文, 数学, 英语) is missing;
  - it adds the missing raw/graded elective columns as nulls;
  - it clips the core scores to [0, 150] and the elective scores to [0, 100];
  - it keeps each candidate's three best graded electives and nulls the other
    four (raw and graded);
  - it puts the known columns first in a fixed order.
- `app.py` computes a candidate's total score: the core scores plus the graded
  scores, with nulls skipped.

Files:
- `common.dfy` (module `Common`): options, results, nullable columns,
  clamping, filtering and distinctness of lists.
- `frames.dfy` (module `Frames`): the subject and column names, and a
  column-oriented table (`Frame`). Core, raw and graded columns are stored
  by slot. Every other column keeps only its name.
- `grading.dfy` (module `ZhejiangGrading`): ranks, levels, the level-wise
  linear rescaling, the grading loop (`ZhejiangGradeScore`) and the
  per-subject driver (`ApplyToFrame`).
- `rules.dfy` (module `ExamRules`): clipping, dropping unnamed columns,
  reordering, the top-three selection, `EnforceRules` and the total score.

Floating point is replaced by exact arithmetic. Raw scores are integers.
Ceilings are whole hundredths. The level test `(rank-1)/n >= ceiling` is
decided exactly as `100*(rank-1) >= ceiling*n`. Interpolation uses real
numbers. Rounding half up is `Floor(x + 0.5)`, exactly as the source writes
it.

The selection of the three best graded electives is specified as a
relation, `IsTopThree`. If the row has at least one graded score, exactly
three subjects are kept, and every kept subject is at least as good as every
dropped one, with a null counting below every value. If the row has no
graded score at all, the first three subjects are kept. NumPy's `argsort`
does not fix which of several equal scores is kept, and neither does the
model. `SelectRow` implements the relation with three rounds of "pick the
best subject not yet kept".

## Model

| member | source | states |
|---|---|---|
| ZhejiangGrading.TablesWellFormed | scripts/apply_zhejiang_fufen.py:19-64 | The ceilings strictly increase and the last one is 100%. Every target range lies within [40, 100]. The ranges are disjoint and fall strictly with the level. |
| ZhejiangGrading.RoundHalfUp | scripts/apply_zhejiang_fufen.py:67-69 | The result r satisfies r - 0.5 <= x < r + 0.5, so a half rounds up. |
| ZhejiangGrading.RoundHalfUpMonotone | scripts/apply_zhejiang_fufen.py:67-69 | Rounding half up keeps the order of its inputs. |
| ZhejiangGrading.Rank | scripts/apply_zhejiang_fufen.py:81-85 | A non-null score's rank lies between 1 and the number of non-null scores. |
| ZhejiangGrading.RankFollowsScore | scripts/apply_zhejiang_fufen.py:85 | A higher score gets a smaller rank. Between equal scores, the earlier row gets the smaller rank. Distinct rows get distinct ranks. |
| ZhejiangGrading.RanksArePermutation | scripts/apply_zhejiang_fufen.py:85 | The ranks of the n non-null scores are exactly 1..n, so ranking is a permutation. |
| ZhejiangGrading.LevelOf | scripts/apply_zhejiang_fufen.py:87-92 | The level lies between 1 and 20. |
| ZhejiangGrading.LevelBrackets | scripts/apply_zhejiang_fufen.py:87-92 | A rank gets level L if and only if (rank-1)/n has reached the ceiling below L and not the ceiling of L. This is the right-sided search over the ceilings. |
| ZhejiangGrading.LevelMonotone | scripts/apply_zhejiang_fufen.py:87-92 | A larger rank never gets a smaller level. |
| ZhejiangGrading.AssignLevels | scripts/apply_zhejiang_fufen.py:72-94 | The levels column is as long as the raw column. It is null exactly where the raw score is null. Otherwise it holds a level between 1 and 20. |
| ZhejiangGrading.GroupScores | scripts/apply_zhejiang_fufen.py:105-110 | The group of a level holds exactly the raw scores of the rows placed at that level: each such row's score is in it, and each value in it is such a row's score. |
| ZhejiangGrading.Min | scripts/apply_zhejiang_fufen.py:111 | s1 is an element of the group and no element is below it. |
| ZhejiangGrading.Max | scripts/apply_zhejiang_fufen.py:112 | s2 is an element of the group and no element is above it. |
| ZhejiangGrading.Target | scripts/apply_zhejiang_fufen.py:114-117 | The unrounded target lies in [low, high]. When s1 < s2 it is low at s1 and high at s2. |
| ZhejiangGrading.Rescaled | scripts/apply_zhejiang_fufen.py:114-119 | The rounded target lies in the level's range [low, high]. |
| ZhejiangGrading.GradeWithLevels | scripts/apply_zhejiang_fufen.py:109-121 | A row's grade is null exactly when its raw score is null. Otherwise it lies in its level's range, so the clip to [40, 100] leaves it alone. |
| ZhejiangGrading.GradedColumn | scripts/apply_zhejiang_fufen.py:97-123 | The graded column is as long as the raw column, null exactly where the raw score is null, and every value lies in [40, 100]. |
| ZhejiangGrading.InterpolationBounds | scripts/apply_zhejiang_fufen.py:117 | For s1 <= s <= s2 with s1 < s2, the interpolated offset (s - s1) * (high - low) / (s2 - s1) lies in [0, high - low] and reaches high - low at s2. |
| ZhejiangGrading.TargetMonotone | scripts/apply_zhejiang_fufen.py:114-117 | Within a group, a higher raw score never gets a lower target. |
| ZhejiangGrading.GradeWithinLevelRange | scripts/apply_zhejiang_fufen.py:109-121 | Each graded score lies in its own level's target range. It equals the rounded rescaling of the raw score over its group's minimum and maximum, so the clip to [40, 100] never changes it. |
| ZhejiangGrading.GroupMonotone | scripts/apply_zhejiang_fufen.py:109-119 | Within one level, a higher raw score never gets a lower graded score. |
| ZhejiangGrading.GroupEndpoints | scripts/apply_zhejiang_fufen.py:110-117 | In a group with s1 < s2, the group's minimum gets the level's low score and its maximum gets the level's high score. |
| ZhejiangGrading.RescaledEndpoints | scripts/apply_zhejiang_fufen.py:117-119 | The rescaling sends s1 to the low score and s2 to the high score. |
| ZhejiangGrading.MidpointValues | scripts/apply_zhejiang_fufen.py:115-119 | The rounded midpoints used by the examples: 99 for level 1, 95 for level 2, 86 for level 5, 77 for level 8, 71 for level 10, 68 for level 11 and 59 for level 14. |
| ZhejiangGrading.RescaledMidpoint | scripts/apply_zhejiang_fufen.py:114-115 | A degenerate group (s1 == s2) is graded at the rounded middle of the range. |
| ZhejiangGrading.DegenerateGroupMidpoint | scripts/apply_zhejiang_fufen.py:114-115 | When all raw scores of a row's level group are equal, the row gets its level's rounded midpoint. |
| ZhejiangGrading.RescaledClosedForm | scripts/apply_zhejiang_fufen.py:117-119 | Rounding half up the interpolation equals the integer quotient (2*low*d + 2*(s-s1)*(high-low) + d) div (2*d), where d = s2 - s1. |
| ZhejiangGrading.HigherRawNotLowerGrade | scripts/apply_zhejiang_fufen.py:85-121 | Across the whole column, a strictly higher raw score never gets a lower graded score. |
| ZhejiangGrading.AllNullColumn | scripts/apply_zhejiang_fufen.py:74-79 | A column without any non-null raw score grades to all nulls. |
| ZhejiangGrading.LoneInLevel | scripts/apply_zhejiang_fufen.py:109-115 | A candidate alone at its level gets the level's rounded midpoint. |
| ZhejiangGrading.DistinctLevelsMidpoints | scripts/apply_zhejiang_fufen.py:104-121 | When no two candidates share a level, every candidate gets its level's rounded midpoint. |
| ZhejiangGrading.StrictlyFallingRanks | scripts/apply_zhejiang_fufen.py:85 | For strictly falling raw scores, row i has rank i + 1. |
| ZhejiangGrading.WorkedExampleLevels | scripts/apply_zhejiang_fufen.py:85-92 | The raw scores 100, 90, 80, 70, 60 get levels 1, 5, 8, 11, 14. |
| ZhejiangGrading.WorkedExample | scripts/apply_zhejiang_fufen.py:97-123 | The raw scores 100, 90, 80, 70, 60 grade to 99, 86, 77, 68, 59. |
| ZhejiangGrading.EqualRawsStraddleLevels | scripts/apply_zhejiang_fufen.py:84-92 | Two equal raw scores get ranks 1 and 2. Because ties are broken by row order, they fall into levels 1 and 10. |
| ZhejiangGrading.EqualRawsStraddle | scripts/apply_zhejiang_fufen.py:84-121 | Two equal raw scores grade to 99 and 71. |
| ZhejiangGrading.GradeFollowsRank | scripts/apply_zhejiang_fufen.py:85-121 | A candidate ranked ahead of another on raw scores never gets the lower grade, including when equal raw scores fall into different levels. |
| ZhejiangGrading.SameGradeSameLevel | scripts/apply_zhejiang_fufen.py:43-64 | Two candidates with the same grade are at the same level, because the level ranges are disjoint. |
| ZhejiangGrading.SameValueRanks | scripts/apply_zhejiang_fufen.py:85 | For a column whose order follows the raw ranking, the rows sharing a value hold a contiguous block of raw ranks, right after the rows with larger values. |
| ZhejiangGrading.BlockRankBounds | scripts/apply_zhejiang_fufen.py:85 | A row of such a block has a raw rank after every row with a larger value and no later than the end of its block. |
| ZhejiangGrading.RankWithinBlock | scripts/apply_zhejiang_fufen.py:85 | Ranking such a column puts each row between two rows of its own value in the raw ranking. |
| ZhejiangGrading.RegradeKeepsLevel | scripts/apply_zhejiang_fufen.py:72-94 | Ranking the graded column gives each candidate a rank with the same level as before. |
| ZhejiangGrading.RegradeKeepsLevels | scripts/apply_zhejiang_fufen.py:72-123 | Assigning levels to the graded column gives every candidate the same level as assigning them to the raw column. |
| ZhejiangGrading.ZhejiangGradeScore | scripts/apply_zhejiang_fufen.py:97-123 | The level-by-level loop, which writes each group's grades in place, produces exactly GradedColumn of the raw column. |
| ZhejiangGrading.GradeByLevels | scripts/apply_zhejiang_fufen.py:102-121 | After the loop over the levels, every row holds its grade for the level it was given, and null rows stay null. |
| ZhejiangGrading.GradeLevel | scripts/apply_zhejiang_fufen.py:105-121 | One pass of the level loop writes, in place, the grade of every row placed at this level and leaves every other cell of the output array as it was. A level without candidates changes nothing. |
| ZhejiangGrading.WriteLevel | scripts/apply_zhejiang_fufen.py:119-121 | The cells of the rows at this level get their clipped, rounded rescaling over [s1, s2]. Every other cell keeps its old value. |
| ZhejiangGrading.ApplyToFrame | scripts/apply_zhejiang_fufen.py:126-135 | The result is a valid table of the same height and core columns. Missing raw and graded columns have been appended in subject order. Each subject's raw column is its old column or all nulls. Its graded column is GradedColumn of that raw column. |
| ZhejiangGrading.GradeElective | scripts/apply_zhejiang_fufen.py:128-134 | For subject s, the missing raw column and then the missing graded column are appended as nulls. Then the graded column is replaced by GradedColumn of the raw column, and no other subject's column changes. |
| ZhejiangGrading.MissingSubjectGradesNull | scripts/apply_zhejiang_fufen.py:128-134 | A subject whose raw column is missing gets an all-null graded column. |
| Frames.AddElectiveColumnsUpToNames | scripts/enforce_exam_rules.py:55-59 | After visiting the first n subjects, every raw and graded name of those subjects is present. |
| Frames.AddElectiveColumnsUpToAppends | scripts/enforce_exam_rules.py:55-59 | Adding the missing columns only appends names at the end. The existing names keep their order, and distinct names stay distinct. |
| Frames.AddElectiveColumnsUpToOnly | scripts/enforce_exam_rules.py:55-59 | A name present after the visit was there before or is a visited subject's raw or graded name. |
| Frames.AddElectiveColumns | scripts/enforce_exam_rules.py:55-59 | The old names stay in front in their order. Every subject's raw and graded names are present. Nothing else is added. Distinct names stay distinct. |
| ExamRules.ClipCell | scripts/enforce_exam_rules.py:25-27 | A null stays null. A value below 0 becomes 0, a value above the maximum becomes the maximum, and a value in range is unchanged. |
| ExamRules.ClipColumn | scripts/enforce_exam_rules.py:25-27 | The clipped column has the same length and the same nulls. Every value lies in [0, max], and every in-range value is unchanged. |
| ExamRules.ClipIdempotent | scripts/enforce_exam_rules.py:25-27 | Clipping twice is the same as clipping once. |
| ExamRules.DropUnnamed | scripts/enforce_exam_rules.py:30-32 | A column survives if and only if it was there and its name does not start with "Unnamed". |
| ExamRules.DropUnnamedKeepsOrder | scripts/enforce_exam_rules.py:30-32 | Dropping keeps the names distinct and keeps the relative order of the surviving columns. |
| ExamRules.PreferredDistinct | scripts/enforce_exam_rules.py:36-41 | The preferred order lists 2 + 3 + 14 distinct names. |
| ExamRules.ReorderPermutation | scripts/enforce_exam_rules.py:35-44 | For distinct names, the reordered columns are a permutation of the input columns. |
| ExamRules.ReorderPreferredFirst | scripts/enforce_exam_rules.py:42-44 | The first columns are exactly the preferred names that are present, in the preferred order. |
| ExamRules.ReorderRestInOrder | scripts/enforce_exam_rules.py:43-44 | After those come the other columns, in their original order. |
| ExamRules.ReorderColumns | scripts/enforce_exam_rules.py:35-44 | The reordered list holds exactly the names of the input, with or without repeated names. |
| ExamRules.FirstMissingCore | scripts/enforce_exam_rules.py:51-53 | The result is None if and only if all three core columns are present. Otherwise it names the first missing one in 语文, 数学, 英语 order. |
| ExamRules.BestUnkept | scripts/enforce_exam_rules.py:74-77 | Returns a subject not yet kept whose graded score is at least that of every other unkept subject, with a null counting lowest. |
| ExamRules.SelectRow | scripts/enforce_exam_rules.py:70-87 | The keep mask, built in an array over three rounds, satisfies IsTopThree. If any graded score exists, exactly three subjects are kept and none of them is worse than a dropped one. If none exists, the first three subjects are kept. |
| ExamRules.KeepFirstThree | scripts/enforce_exam_rules.py:84-87 | Overwrites the mask in place so that it keeps exactly the first three subjects. |
| ExamRules.SelectRows | scripts/enforce_exam_rules.py:72-87 | One mask per row, and each row's mask satisfies IsTopThree for that row's graded scores. |
| ExamRules.SelectionCount | scripts/enforce_exam_rules.py:72-92 | After the selection, a row holds min(3, k) graded scores, where k is the number it held before. |
| ExamRules.SelectionOrder | scripts/enforce_exam_rules.py:73-77 | A graded score that survives is at least as high as any graded score that was dropped. |
| ExamRules.SelectionKeepsOrDrops | scripts/enforce_exam_rules.py:89-92 | The core scores are unchanged. Each subject either keeps both its raw and graded score or has both set to null. |
| ExamRules.NoGradesKeepsFirstThree | scripts/enforce_exam_rules.py:83-87 | A row without any graded score keeps the raw scores of the first three subjects and nulls the other four. |
| ExamRules.DropUnselected | scripts/enforce_exam_rules.py:89-92 | Column by column, each row's raw and graded cell of subject s is kept if the row's mask keeps s and set to null otherwise. Names, height and core scores are unchanged. |
| ExamRules.SelectAndDrop | scripts/enforce_exam_rules.py:69-92 | Every row of the result is a SelectedRow of the same row of the input: some mask satisfying IsTopThree has been applied to it. Names, height and core scores are unchanged. |
| ExamRules.ClipScores | scripts/enforce_exam_rules.py:61-67 | The result is Clipped(f): the core columns are clipped to [0, 150], and the raw and graded columns to [0, 100], each by ClipColumn. |
| ExamRules.AddMissingElectives | scripts/enforce_exam_rules.py:55-59 | The columns become AddElectiveColumnsUpTo over all seven subjects. Every subject's raw and graded slot holds its old column when the name was present and nulls otherwise. Height and core scores are unchanged. |
| ExamRules.AddElective | scripts/enforce_exam_rules.py:56-59 | One step of that loop: subject s's raw name and then its graded name are appended when absent, with null cells. Later subjects are untouched. |
| ExamRules.EnforceRules | scripts/enforce_exam_rules.py:47-104 | The call fails if and only if a core column is missing, and the error names the first missing one. On success, the result satisfies Enforced, which has four parts. (1) The columns are the prepared ones (unnamed dropped, missing electives added) in the fixed order. (2) The height is unchanged. (3) The core scores are the clipped ones. (4) Every row is a top-three selection of its clipped row. |
| ExamRules.EnforcedBounds | scripts/enforce_exam_rules.py:61-92 | In the result, every core score lies in [0, 150], every raw or graded score lies in [0, 100], and no row keeps more than three graded scores. |
| ExamRules.MissingRawStaysNull | scripts/enforce_exam_rules.py:55-57 | A subject whose raw column was absent has only null raw scores in the result. |
| ExamRules.MissingGradedStaysNull | scripts/enforce_exam_rules.py:55-59 | A subject whose graded column was absent has only null graded scores in the result. |
| ExamRules.TotalScore | app.py:28-33 | The total is the sum of the non-null cells of the core columns followed by the graded columns, with nulls skipped. |
| ExamRules.SumPresentAppend | app.py:33 | The sum over a concatenation of cells is the sum of the two parts, so the row total over core then graded columns is the core sum plus the graded sum. |
| ExamRules.SumPresentBound | app.py:28-33 | A sum of present scores, each in [0, m], lies in [0, m * count]. |
| ExamRules.TotalBound | app.py:28-33 | Every total of an enforced table lies in [0, 750]: three core scores of at most 150 and at most three graded scores of at most 100. |
| ExamRules.Scenario528 | app.py:28-33 | Core scores 90, 95, 88 and graded scores 90, 85, 80 for three subjects survive the selection unchanged and total 528. |

## Left out

- Reading and writing CSV files and the command-line entry points (`main` in both scripts) are I/O and are not modelled.
- `pd.to_numeric(..., errors="coerce")` is not modelled. Cells are already integers or null, and a cell that is not a number is taken to be null.
- The `Int64` casts at the end of `enforce_rules` are not modelled. Scores are integers throughout, so the cast cannot fail or round.
- Floating-point rounding is not modelled. The model uses exact arithmetic, which agrees with the source for integer raw scores and ceilings in whole hundredths.
- Columns other than the core, raw and graded ones are modelled by their names only. Their cells pass through every step unchanged.
- ExamRules.SelectRow: argsort's tie-break among equal graded scores (and among nulls, when fewer than three grades exist) is not pinned. The contract allows any choice of equally good subjects.
- ExamRules.ReorderPermutation: requires distinct column names. A table with duplicate column names is outside the model.
- ExamRules.TotalScore: sums the three core columns and the seven graded columns. This equals `app.py`'s total only when the input table has no other column whose name contains 赋分. Neither script removes such a column, and `app.py` would add it to the total too. That case is not modelled.
- The Streamlit dashboard in `app.py` (charts, rank tables, file loading) is not modelled.
- `generate_ppt.py` and `scripts/add_sciences.py` are not part of this model.
- The parallel-application admission simulation appears only as slide text in `generate_ppt.py` (lines 87-94). There is no code for it to model.
- The command-line help text of `enforce_exam_rules.py` says "choose 3 of 6", but the code selects among seven subjects. The model follows the code.

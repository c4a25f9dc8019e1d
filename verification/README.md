# Karnataka SSLC result calculator: the grading logic in Dafny

This project models the grading logic of a small Flask application (`app.py`)
that turns a student's subject marks into a Karnataka SSLC result, and proves
properties of that model.

The application has two paths:

- The main page (`index`) strips the student name and rejects it if it is
  blank. It then zips the posted subject names with the posted marks and
  checks each pair in input order. Kannada, in any letter case, is marked out
  of 125. Every other subject is marked out of 100. The first mark that is
  not a whole number, or that lies outside its subject's range, ends the
  computation with an error message. Otherwise it totals the marks and the
  maxima. The status is FAIL when any subject is below 35% of its maximum.
  The grade is the band of the overall percentage: Distinction from 85,
  First Class from 60, Second Class from 50, Pass Class from 35, Fail below.
- The PDF report (`download_pdf`) gets the subjects back as "subject:mark"
  items. It derives the maxima, the percentages, the failed flag and the
  totals again, without the range check. It then produces four observations
  (`generate_insights`): a pass/fail remark, a performance remark on its own
  three thresholds (85, 60 and 50), and the highest and lowest subject
  percentages.

Modules, in dependency order:

- `Results` (`results.dfy`): the `Result` type that stands in for the
  exceptions.
- `Text` (`text.dfy`): Python's `str.strip()` and the part of `str.lower()`
  that decides whether a subject is Kannada.
- `Grading` (`grading.dfy`): maximum marks, percentages, and the grade bands.
- `Engine` (`engine.dfy`): the validation and aggregation of the main page,
  as a function (`Compute`) and as the loop the source runs (`Index`,
  `ValidateAll`, `AcceptPair`).
- `EngineProperties` (`engine_properties.dfy`): what a submission's outcome
  is, stated against its inputs.
- `Insights` (`insights.dfy`): the four observations.
- `PdfReport` (`pdf_report.dfy`): the report's own derivation, and its
  agreement with the main page.

Python floats are modelled as exact rationals (`real`). Each percentage test
on marks, on the main page and in the report, is also proved equal to a
comparison of cross-multiplied integers. For example, "below 35%" is
`100 * mark < 35 * max`. The performance remark of the report is the
exception: it bands the average posted to it, which is a number, not marks.

Two behaviours of the code are worth stating plainly:

- The grade is banded on the unrounded overall percentage (app.py:112), not
  on the rounded `average` that the page shows (app.py:111).
- With a name given but no subject zipped, the totals stay 0 and the
  division at app.py:106 fails. The handler shows the exception's text,
  "division by zero" (app.py:116-117), and the model returns `DivisionByZero`.

## Model

| member | source | states |
|---|---|---|
| `Text.Strip` | app.py:68 | The stripped name is one contiguous piece of the raw name with no white space at either end, everything dropped on either side is white space, and it is empty exactly when the raw name is all white space (Python's `isspace` characters). |
| `Text.FoldCharVariants` | app.py:83 | A character lowers to an ASCII lower-case letter exactly when it is that letter, its capital, or (for 'k') KELVIN SIGN. |
| `Text.LowerEqualsWord` | app.py:83 | A string lowers to a lower-case ASCII word exactly when it has the word's length and each character is one of the spellings of the word's letter at that position. |
| `Grading.IsKannada` | app.py:83 | `subject.lower() == "kannada"` holds exactly for the seven-letter spellings of "kannada" in any mix of cases, KELVIN SIGN included. A name with surrounding spaces is not Kannada. |
| `Grading.MaxMarks` | app.py:83-90 | The maximum is 125 exactly for those spellings of "kannada" and 100 for every other subject name. |
| `Grading.CalculateGrade` | app.py:11-21 | The grade is Fail exactly below 35. Any other grade's floor (85, 60, 50 or 35) is at most the percentage. |
| `Grading.GradeReachesBand` | app.py:11-21 | A percentage gets a grade at or above a band exactly when it is at least that band's floor. Each band includes its lower bound. |
| `Grading.GradeIsMonotone` | app.py:11-21 | A higher percentage never gets a lower grade. |
| `Grading.PercentCompare` | app.py:92-95 | Comparing `(part / whole) * 100` with a whole-number threshold gives the same answer as comparing `100 * part` with `threshold * whole`. |
| `Grading.GradeFromMarks` | app.py:106-112 | Banding the exact overall percentage gives the same grade as the integer cross-multiplied thresholds. |
| `Engine.NamesIdentify` | app.py:12-21 | The grade texts ("Distinction", "First Class", "Second Class", "Pass Class", "Fail") and the status texts ("PASS", "FAIL" at app.py:113) each name exactly one grade or status. |
| `Engine.MessageIdentifiesError` | app.py:73-117 | The error texts the page shows (the blank-name text at 73, the `int()` text, the Kannada text at 85, the subject's text at 89, and "division by zero") are all different, so the text shown determines the error. |
| `Engine.TotalMax` | app.py:97-98 | The total maximum of n accepted subjects lies between 100 * n and 125 * n. |
| `Engine.TotalsOfJoin` | app.py:94-98 | The running totals and the failed flag of two runs of subjects joined are the sums, and the "or", of each run's. |
| `Engine.Zip` | app.py:80 | Pairs subject names with marks position by position and stops at the shorter list. |
| `Engine.CheckPair` | app.py:81-90 | A pair is accepted exactly when its mark is a whole number between 0 and the subject's maximum. A malformed mark gives the int() error. An out-of-range mark gives the Kannada error for Kannada in any case, and otherwise the error naming the subject. |
| `Engine.CheckPairs` | app.py:80-104 | Validation succeeds exactly when every pair is accepted. It then yields one entry per pair, in input order. |
| `Engine.FirstRejectionReported` | app.py:80-90 | When pair k is the first rejected pair, its error is the one reported, whatever follows it. |
| `Engine.Compute` | app.py:68-114 | A result carries the stripped, non-blank name and exactly the entries that validation accepted. |
| `Engine.AcceptPair` | app.py:81-90 | The loop body's branches (int() conversion, then the Kannada or other range check) accept or reject exactly as `CheckPair` does. On acceptance they pick the entry's maximum, 125 or 100. |
| `Engine.ValidateAll` | app.py:75-104 | The loop, with its running totals, failed flag and early exit, returns exactly what `CheckPairs` specifies. On success the totals and flag are those of the accepted entries. |
| `Engine.Index` | app.py:68-117 | Stripping the name, running the loop and dividing the totals returns exactly what `Compute` specifies, including the division-by-zero error when there are no pairs. |
| `EngineProperties.ValidationReportsFirstRejection` | app.py:80-90 | Validation fails exactly when some pair is rejected. It then fails with the error of the earliest rejected pair. |
| `EngineProperties.NameCheckedFirst` | app.py:68-73 | "Student name is required" is the outcome exactly when the name is blank after stripping, whatever the marks are. |
| `EngineProperties.FirstOffendingPairReported` | app.py:80-90 | With a name given, the first offending pair in input order decides the error. For a whole-number mark, the message is the fixed Kannada one, or "`subject` marks must be between 0 and 100". |
| `EngineProperties.NoSubjectsDividesByZero` | app.py:75-106 | The outcome is a division by zero, shown as "division by zero", exactly when the name is given and one of the two lists is empty. |
| `EngineProperties.SucceedsExactlyWhenValid` | app.py:72-106 | A result is produced exactly when the name is not blank, at least one pair is zipped, and every zipped mark is a whole number within its maximum. |
| `EngineProperties.ResultKeepsInputOrder` | app.py:80-104 | A result has one entry per zipped pair, min(number of subjects, number of marks) in all, in input order. Each entry has its pair's subject and mark, within range. |
| `EngineProperties.AnyFailingMeansBelowPassMark` | app.py:92-95 | The loop's failed flag (`Engine.AnyFailing`) is set exactly when some entry has `100 * mark < 35 * max`. |
| `EngineProperties.StatusFromSubjects` | app.py:94-113 | The status is FAIL exactly when some subject of the result is below 35% of its maximum. The overall percentage plays no part. |
| `EngineProperties.TotalsBounded` | app.py:97-98 | Marks within their maxima never total more than the maxima. |
| `EngineProperties.AverageAndGrade` | app.py:106-112 | For a result, 0 <= total obtained <= total maximum and the maximum is positive. The average is the exact unrounded ratio and lies in [0, 100]. The grade is the band of that unrounded value. |
| `EngineProperties.PassedIsNeverGradedFail` | app.py:94-113 | A PASS status implies a grade other than Fail. |
| `EngineProperties.FirstClassYetFailed` | app.py:106-113 | Grade and status are independent. English 100 with Maths 34 is graded First Class (67%) but has status FAIL. |
| `EngineProperties.UpperCaseKannadaReportedFirst` | app.py:83-85 | "KANNADA" at 130 followed by English at 105 gives the Kannada error. The message is "Kannada marks must be between 0 and 125". |
| `Insights.GenerateInsights` | app.py:34-58 | There are exactly four observations when some subject percentage exists, and an error otherwise. They are the failed-flag remark, the performance remark, a highest value that occurs in the list and bounds it from above, and a lowest value that occurs in the list and bounds it from below. |
| `Insights.StatusRemark` | app.py:37-44 | The failed remark is given exactly when the failed flag is set, and the passed remark exactly when it is not. |
| `Insights.PerformanceRemark` | app.py:46-53 | Each remark covers one half-open range: Distinction from 85, First Class on [60, 85), Second Class on [50, 60), the minimum remark below 50. |
| `Insights.PerformanceRemarkFollowsGrade` | app.py:46-53 | The performance remark matches the grade band from Second Class up. Pass Class and Fail both get the minimum-passing remark. |
| `Insights.RemarksAreIndependent` | app.py:37-53 | The first remark depends on the failed flag alone and differs between its two values. The second remark is the same for every percentage below 50. |
| `Insights.MaxOf` | app.py:55 | Python's `max` of a non-empty list is an element of it and at least every element. |
| `Insights.MinOf` | app.py:56 | Python's `min` of a non-empty list is an element of it and at most every element. |
| `PdfReport.DeriveReport` | app.py:140-157 | The report derives data exactly when every mark is a whole number; it has no range check. Each item gives its subject and its percentage of the subject's maximum, in order. The failed flag is set exactly when some percentage is below 35. The totals are the sums of the marks and of the maxima over every item, in range or not. |
| `PdfReport.ReportFailedInWholeNumbers` | app.py:149-151 | The report's failed flag is set exactly when some item has `100 * mark < 35 * max`. |
| `PdfReport.DownloadPdf` | app.py:140-182 | A report exists exactly when there is at least one item and every mark is whole. Its data is what the derivation gives for the items. Its four insights are the failed-flag remark, the performance remark on the posted average, and the maximum and minimum of the derived percentages. The header percentage is the ratio of the derived totals. |
| `PdfReport.ReportAgreesWithIndex` | app.py:140-157 | For pairs the main page accepts, the report derives the same subjects, percentages, failed flag and totals as the main page. |
| `PdfReport.ReportAgreesWithResult` | app.py:140-159 | For an accepted submission, the report on the same pairs states the same pass/fail verdict as the result's status, and the same overall percentage. |
| `PdfReport.ReportSkipsRangeCheck` | app.py:142-149 | The main page rejects English at 130, but the report accepts it and draws it as 130%. |

## Left out

- Flask routing, form access, `render_template` and `send_file` (app.py:61-66, 119, 122-131, 240-245). The model's functions take the form values as parameters and return the result or the error in place of the page.
- All reportlab drawing (app.py:24-31, 161-237): the watermark, header, bar-chart geometry, colours, label truncation and footer. The footer date comes from the wall clock, which is also not modelled.
- Float arithmetic and `round(..., 2)` (app.py:103, 111, 157, 182). Percentages are exact rationals. The result's `average` is the unrounded value that the grade is banded on. Per-subject percentages are computed from the entry rather than stored rounded.
- `PdfReport.DownloadPdf`: the source receives an average posted by the page, which is the rounded one. The model takes that average as a parameter. `PdfReport.ReportAgreesWithResult` passes the unrounded value, so it does not cover a rounded average that crosses a band threshold.
- Text-to-integer parsing by `int()` (app.py:81, 142): a mark arrives already classified as `Whole(n)` or `Malformed(text)`. The int() error message quotes the text plainly, not in Python's `repr` form.
- The `"subject:mark"` split of the report items (app.py:141). An item without exactly one colon raises in the source. The model receives the report items as pairs already split.
- PdfReport.ReportAgreesWithResult: the agreement assumes subject names without a colon. A subject containing ':' is accepted by the main page, but splitting its report item (app.py:141) raises, and the model does not split items.
- The text of insight lines 3 and 4 (app.py:55-56): those lines carry the highest and lowest percentages as numbers, not formatted strings.
- `Text.FoldChar` is Python's `lower()` only to the extent that it decides equality with "kannada". Other characters keep their case, which cannot change that comparison.
- The name and grade strings that the report copies through unchanged (app.py:128-130, 181-183) are not part of `PdfContent`.

# Job dashboard view logic, modelled in Dafny

The job dashboard is a browser UI over a hosted store of scraped job
postings. Its own logic is small. This project models that logic and proves
what it promises:

- **Dashboard page** (`dashboard.dfy`, module `Dashboard`). It covers the two
  column predicates the page defines: the minimum score and the application
  status. It covers the score and status cells. It covers the column-filter
  list that three effects keep in step with the location, status and
  minimum-score controls; this is a class whose setters run an effect only
  when the control's value changes, as React does. Last, it covers the
  sorted list of distinct locations offered by the location control.
- **Score panel** (`job_score.dfy`, module `JobScore`). The text and
  background colour chains are proved against one interval definition of the
  bands. The module also models the rule that shows the number or
  "Not scored yet".
- **Apply confirmation** (`application_status.dfy`, module
  `ApplicationStatus`). A class holds the `status` prop and the
  `showConfirm` flag, plus a ghost log of every `onStatusChange` call and a ghost count of the times the dialog went from closed to open.
- **Company description** (`company_description.dfy`, module
  `CompanyDescription`). This covers `split(/\n\n+/)`, written out character
  by character, and JavaScript's `trim` with its full white-space set. It
  also covers the empty-paragraph filter, the two-paragraph preview, the
  `<br />` rule inside a paragraph, and a class holding the `isExpanded`
  flag.

`wrappers.dfy` defines `Option`, the model of a `T | null` field.
`sequences.dfy` defines the subsequence predicate used by both list filters.

In these points the model follows the code:

- A score of 0 is treated as missing by `!score` (src/pages/Dashboard.tsx:46,
  src/components/JobScore.tsx:7 and 15). It is shown as "N/A" in the table and
  in the neutral colour on the panel, not in the red band.
- The location column has no predicate of its own (src/pages/Dashboard.tsx:59).
  Its filtering is the table library's default, not an exact match, so it is
  not modelled.
- Confirming does not make the status "Applied"
  (src/components/ApplicationStatus.tsx:23-26). The component only reports
  "Applied" to its parent, and the status changes when the parent passes a
  new `status`.
- The status predicate and cell accept a missing or empty status
  (src/pages/Dashboard.tsx:66-67 and 71-81). They treat it as "Not Applied",
  although the record type declares the field as a plain string
  (src/types/supabase_job.ts:17).

## Model

| member | source | states |
|---|---|---|
| `JobScore.ScoreColor` | src/components/JobScore.tsx:6-12 | The text class is the class of the one band the score lies in. A missing score or 0 is gray, below 40 red, 40-59 orange, 60-79 yellow, 80 and above green. |
| `JobScore.ScoreBgColor` | src/components/JobScore.tsx:14-20 | The background class is the class of the same band, by the same interval definition. |
| `JobScore.BandsPartitionScores` | src/components/JobScore.tsx:7-11 | Every score, present or missing, lies in exactly one band. |
| `JobScore.ScoreColorIsMonotone` | src/components/JobScore.tsx:7-11 | Among scores of at least 0, a higher score never gets a lower-ranked text colour; 0 is gray, the lowest rank. |
| `JobScore.TextAndBackgroundAgree` | src/components/JobScore.tsx:6-20 | For every score, the text colour is band t's exactly when the background is band t's. |
| `JobScore.Panel` | src/components/JobScore.tsx:28-37 | The number is shown exactly when the score is present, 0 included, in its band's text colour; a missing score shows "Not scored yet"; the background is the score's band. |
| `Dashboard.ScoreFilterFn` | src/pages/Dashboard.tsx:39-43 | The minimum-score predicate itself; what it accepts is stated by the three lemmas below. |
| `Dashboard.AbsentScoreNeverPasses` | src/pages/Dashboard.tsx:39-41 | The minimum-score predicate rejects a row without a score, whatever the threshold. |
| `Dashboard.PresentScorePassesIffAtLeast` | src/pages/Dashboard.tsx:42 | A row with a score passes exactly when score >= threshold. |
| `Dashboard.ScoreFilterAntitone` | src/pages/Dashboard.tsx:39-43 | Raising the threshold never lets a rejected row through. |
| `Dashboard.EffectiveStatus` | src/pages/Dashboard.tsx:66-67 | A missing or empty status becomes "Not Applied"; any other status is kept; the result is never empty. |
| `Dashboard.StatusFilterFn` | src/pages/Dashboard.tsx:65-69 | The status predicate itself: the defaulted status equals the filter value; its properties are the lemmas below. |
| `Dashboard.MissingStatusCountsAsNotApplied` | src/pages/Dashboard.tsx:65-69 | A row with a missing or empty status passes the filter "Not Applied" and fails "Applied". |
| `Dashboard.StatusFilterIsExactMatch` | src/pages/Dashboard.tsx:65-69 | A non-empty status passes exactly the filter value equal to it. |
| `Dashboard.StatusCell` | src/pages/Dashboard.tsx:70-85 | The cell uses the applied styling exactly when the status is "Applied", and then reads "Applied". |
| `Dashboard.StatusFilterMatchesCellLabel` | src/pages/Dashboard.tsx:65-81 | The status predicate accepts a row exactly when the row's status cell reads as the filter value. |
| `Dashboard.ScoreCell` | src/pages/Dashboard.tsx:44-55 | "N/A" exactly for a missing score or 0; otherwise the score in the text class of its band. |
| `Dashboard.ScoreCellAgreesWithScorePanel` | src/pages/Dashboard.tsx:46-52 | For every present nonzero score, the table cell and the detail panel show the same number in the same text colour. |
| `Dashboard.ZeroScoreDiffersBetweenViews` | src/pages/Dashboard.tsx:46 | The score 0 is "N/A" in the table but the number 0 (gray) on the detail panel. |
| `Dashboard.PassingPositiveThresholdIsColoured` | src/pages/Dashboard.tsx:39-52 | A row that passes a positive minimum score is always shown with a colour, never "N/A". |
| `Dashboard.WithoutId` | src/pages/Dashboard.tsx:108 | The result has no entry with the id. |
| `Dashboard.WithoutIdKeepsOthers` | src/pages/Dashboard.tsx:108 | Every entry with another id is kept as often as it occurred. |
| `Dashboard.WithoutIdKeepsOrder` | src/pages/Dashboard.tsx:108 | The kept entries are in their original order (a subsequence). With the two rows above this fixes the result. |
| `Dashboard.ReplaceFilter` | src/pages/Dashboard.tsx:105-143 | Apart from the control's id, the list is unchanged in content and order. A cleared control leaves no entry with its id. A set control leaves exactly one, carrying the new value, at the end. |
| `Dashboard.ReplaceFilterIdempotent` | src/pages/Dashboard.tsx:105-143 | Applying the same control update twice gives the list that applying it once gives. |
| `Dashboard.ReplaceFilterKeepsOthers` | src/pages/Dashboard.tsx:110-113 | An update for one control leaves the multiplicity of every other control's entries, and their count, unchanged. |
| `Dashboard.LocationEffect` | src/pages/Dashboard.tsx:105-115 | "all" removes every location entry. Any other value leaves exactly one location entry with that text, last. Other entries keep their order. |
| `Dashboard.StatusEffect` | src/pages/Dashboard.tsx:117-127 | The same for the status control and the `application_status` id. |
| `Dashboard.ScoreEffect` | src/pages/Dashboard.tsx:129-143 | An empty input removes every score entry. A number leaves exactly one score entry with it, last. Other entries keep their order. |
| `Dashboard.FilterControls.constructor` | src/pages/Dashboard.tsx:11-15 | The controls start at "all", "all" and empty. After the mount effects the filter list is empty and in step with them. |
| `Dashboard.FilterControls.SetLocationFilter` | src/pages/Dashboard.tsx:105-115 | Sets the control. The location effect runs only if the value changed. The list stays in step with all three controls (at most one entry per id, the right value, no foreign ids). |
| `Dashboard.FilterControls.SetStatusFilter` | src/pages/Dashboard.tsx:117-127 | The same for the status control. |
| `Dashboard.FilterControls.SetMinScore` | src/pages/Dashboard.tsx:129-143 | The same for the minimum-score control. |
| `Dashboard.UniqueLocations` | src/pages/Dashboard.tsx:32 | Strictly sorted in JavaScript's default string order, and holds exactly the locations that occur in the jobs. |
| `Dashboard.StrictlySortedIsUnique` | src/pages/Dashboard.tsx:32 | Two strictly sorted lists with the same elements are equal. So the modelled list is the page's list, however the set is built and sorted. |
| `Dashboard.UniqueLocationsSortedAndDistinct` | src/pages/Dashboard.tsx:32 | The location list has no duplicates and lists the location of every job. |
| `ApplicationStatus.StatusToggle.constructor` | src/components/ApplicationStatus.tsx:8-10 | The dialog starts closed, it has never been opened, and nothing has been reported. |
| `ApplicationStatus.StatusToggle.IsApplied` | src/components/ApplicationStatus.tsx:10 | Only the exact status "Applied" counts as applied. |
| `ApplicationStatus.StatusToggle.Emit` | src/components/ApplicationStatus.tsx:5 | A call of the callback appends its value to the log. Only "Applied" or "Not Applied" is ever passed, and "Applied" only while the dialog is open; then the number of "Applied" reports is at most the number of times the dialog went from closed to open. |
| `ApplicationStatus.StatusToggle.HandleToggle` | src/components/ApplicationStatus.tsx:12-21 | With status exactly "Applied": reports "Not Applied" at once and closes the dialog. With any other status: reports nothing and opens the dialog, counting an opening only if it was closed. The class invariant holds: the "Applied" reports, plus one for a dialog still open, are at most the number of openings. |
| `ApplicationStatus.StatusToggle.HandleConfirm` | src/components/ApplicationStatus.tsx:23-26 | Callable only while the dialog is open, as the Confirm button exists only then (lines 71-82). Reports exactly "Applied" and closes the dialog, keeping the invariant that each opening of the dialog allows at most one "Applied". |
| `ApplicationStatus.StatusToggle.HandleCancel` | src/components/ApplicationStatus.tsx:28-30 | Callable only while the dialog is open, as the Cancel button exists only then (lines 83-88). Closes the dialog and reports nothing. |
| `ApplicationStatus.StatusToggle.ReceiveStatus` | src/components/ApplicationStatus.tsx:3-10 | A new `status` prop replaces the old one; the dialog flag and the log are kept. |
| `ApplicationStatus.RequestThenCancel` | src/components/ApplicationStatus.tsx:12-30 | Asking to mark as applied and then cancelling leaves the log unchanged and the dialog closed. |
| `ApplicationStatus.RequestThenConfirm` | src/components/ApplicationStatus.tsx:12-26 | Asking and confirming reports "Applied" exactly once; the toggle counts as an opening only if the dialog was closed. |
| `ApplicationStatus.RequestTwiceThenConfirm` | src/components/ApplicationStatus.tsx:12-26 | Pressing the toggle twice before confirming opens the dialog once and reports "Applied" once. |
| `ApplicationStatus.ApplyThenUnmark` | src/components/ApplicationStatus.tsx:12-26 | From any status other than "Applied": mark, confirm, parent stores "Applied", toggle; reports "Applied" then "Not Applied", with no second confirmation. |
| `CompanyDescription.SplitAtBlankLines` | src/components/CompanyDescription.tsx:12 | There is at least one piece. The first piece is a prefix of the text. |
| `CompanyDescription.PiecesHaveNoBlankLine` | src/components/CompanyDescription.tsx:12 | No piece contains two consecutive newlines. |
| `CompanyDescription.SplitAtBlankLinesRoundTrip` | src/components/CompanyDescription.tsx:12 | Joining the pieces with one blank line gives the text with every run of two or more newlines shortened to exactly two. |
| `CompanyDescription.Trim` | src/components/CompanyDescription.tsx:13 | The result is the text minus a white-space prefix and suffix. It has no white space at either end. It is empty exactly when the text is all white space. |
| `CompanyDescription.TrimAll` | src/components/CompanyDescription.tsx:13 | One result per piece, each the piece with its whole white-space prefix and suffix removed: a trimming of the piece with no white space left at either end. |
| `CompanyDescription.DropEmpty` | src/components/CompanyDescription.tsx:14 | Keeps exactly the non-empty paragraphs, each as often as it occurred, in order; no empty one remains. |
| `CompanyDescription.Paragraphs` | src/components/CompanyDescription.tsx:11-14 | The paragraphs are the non-empty trimmed split pieces, each as often as it occurred and in order. Every paragraph is non-empty, trimmed at both ends and free of blank lines. |
| `CompanyDescription.ParagraphsOfJoinedParagraphs` | src/components/CompanyDescription.tsx:11-14 | Well-formed paragraphs joined by a blank line are read back as exactly those paragraphs, in order; this includes the empty list, read back from the empty text. |
| `CompanyDescription.Preview` | src/components/CompanyDescription.tsx:17 | A prefix of the paragraphs, of length min(2, count). |
| `CompanyDescription.Remaining` | src/components/CompanyDescription.tsx:18 | Preview followed by remaining is the full paragraph list. |
| `CompanyDescription.HasMore` | src/components/CompanyDescription.tsx:19 | Holds exactly when there are more than two paragraphs. |
| `CompanyDescription.SplitLines` | src/components/CompanyDescription.tsx:30 | At least one line; no line contains a newline. |
| `CompanyDescription.SplitLinesRoundTrip` | src/components/CompanyDescription.tsx:30 | The lines joined with newlines are the paragraph. |
| `CompanyDescription.LineBreaksBetweenLines` | src/components/CompanyDescription.tsx:30-33 | One break fewer than lines. No break after the last line. Lines and breaks read back as the paragraph. |
| `CompanyDescription.DescriptionView.constructor` | src/components/CompanyDescription.tsx:8-14 | The view starts collapsed, over the description's paragraphs. |
| `CompanyDescription.DescriptionView.ShowsButton` | src/components/CompanyDescription.tsx:51-57 | The toggle button exists exactly when there are more than two paragraphs. |
| `CompanyDescription.DescriptionView.Shown` | src/components/CompanyDescription.tsx:28-46 | Collapsed: only the preview. Expanded: all paragraphs in their order. Always a prefix of the paragraphs. |
| `CompanyDescription.DescriptionView.ClickToggle` | src/components/CompanyDescription.tsx:53 | Each click flips `isExpanded`; only possible when the button is shown. |
| `CompanyDescription.CollapsedShowsAllIffNoButton` | src/components/CompanyDescription.tsx:28-56 | Collapsed, every paragraph is on screen exactly when there is no toggle button. |

## Left out

- Reading the job list and a single job from the data store, and writing the status (src/pages/Dashboard.tsx:17-29, src/pages/JobPage.tsx:12-40): network I/O through a client module that is not part of this model.
- Sorting, the free-text search, and how the table combines column filters (src/pages/Dashboard.tsx:89-103, 240): these are done by the table library, whose code is not part of this model. This includes the location column's matching, which uses the library's default predicate.
- Dashboard.ScoreEffect: the control's text is taken as an already parsed integer. `Number(...)` of free text, and NaN, are not modelled. So is a change of the text that parses to the same number (say "50" to "050"), which re-runs the effect in the page.
- JobScore.ScoreColorIsMonotone: scores are modelled as integers, although the field is declared `number` (src/types/supabase_job.ts:14), so a fractional score such as 79.5 is not represented. The lemma is stated for scores of at least 0 only: a negative score is red while 0 is gray, so the band order does not hold below 0.
- Dashboard.UniqueLocations: characters are compared as Unicode scalar values. JavaScript's default sort compares UTF-16 code units. The two orders differ only between characters above U+FFFF and characters from U+E000 to U+FFFF.
- The score cell's initial class "text-gray-400" (src/pages/Dashboard.tsx:48) is overwritten on every path, so it is not modelled.
- ApplicationStatus: what the parent does with a reported status is not part of this model. That includes persisting it and passing a new `status` back; `ReceiveStatus` stands for the latter.
- CompanyDescription.DescriptionView: the paragraphs are fixed at mount. A later change of the `description` prop is not modelled.
- Markup, CSS and routing: src/components/JobHeader.tsx, src/App.tsx, and everything in the core files beyond the class names and texts modelled above.
- src/components/QuickActions.tsx (file download plumbing) and src/components/JobMetadata.tsx (locale date formatting and `JSON.stringify`) are not part of this model.

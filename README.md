# Progress reports admin page — Dafny model

This project models the logic inside the admin "Progress Reports" page
(`client/src/pages/Admin/Yearly/Progress.jsx`). The page holds the unread
progress reports of research projects. Administrators filter them by year,
project title and principal investigator, order them by year, open one in a
popup, mark one as read and export the selected one as a PDF.

Modules:

- `Reports` (`reports.dfy`): the records. A `Report` carries its `_id`
  (`id`), the `projectId` as a bare identifier, an embedded project or absent
  (`ProjectRef`), title, investigators, year, research area, objectives,
  methodology and the nested achievements. `FilterCriteria` is the `filters`
  state.
- `Strings` (`strings.dfy`): `toLowerCase` on ASCII letters, `includes`,
  `join`, and the decimal text of a number in a template literal.
- `Sequences` (`sequences.dfy`): `Array.prototype.filter` as `Filter`, and the
  order-preserving sub-sequence relation.
- `ReportList` (`report_list.dfy`): the filter callback `Matches`, the derived
  list `filteredReports` as the method `DeriveView`, and `.sort` as an in-place
  insertion sort over an array. Also the removal done by `markAsRead`, and the
  page state as the class `ViewState`, whose methods are the event handlers.
- `ReportDocument` (`report_document.dfy`): the data `saveAsPDF` passes to the
  PDF library. That is the `projectId?._id || projectId` resolution, the
  download name, the detail lines, the achievements table and the guard when
  nothing is selected.

Modelling choices:

- The year criterion is held already parsed, as `Option<int>`. `None` stands
  for the empty input.
- A text query is `None` when the field was never set. A query that is unset
  or empty is falsy in JavaScript and places no restriction. This matters for
  the investigator filter: with an empty query, a report with no
  investigators still passes.
- `sortOrder` is a string. `"asc"` orders by ascending year. Any other value
  orders by descending year, as the comparator does.
- `markAsRead`'s request outcome is an input flag, `succeeded`.
- A successful `markAsRead` removes every entry whose `_id` matches
  (Progress.jsx:41), not only the first. `WithoutUniqueIdDropsOne` proves that
  exactly one is removed when identifiers are unique.
- `projectId?._id || projectId` falls back to the project object when an
  embedded `_id` is empty. A template literal renders that object as
  `[object Object]`. In the table cell (`|| "N/A"`) the object itself would be
  handed to React. The model returns `None` for that case.
- A record without a `projectId` (`ProjectRef.Absent`) shows "N/A" in the
  table cell and writes `undefined` into the download name and body line.

## Model

| member | source | states |
|---|---|---|
| `ReportList.MatchesIff` | client/src/pages/Admin/Yearly/Progress.jsx:153-164 | A report passes the filter exactly when three things hold. Its year equals the year criterion, if one is set. Its lower-cased title contains the lower-cased title query, if that query is non-empty. Some investigator's lower-cased name contains the lower-cased investigator query, if that query is non-empty. |
| `ReportList.AnyInvestigatorContainsIff` | client/src/pages/Admin/Yearly/Progress.jsx:158-162 | The `.some` test holds exactly when there is an index whose investigator name contains the query. |
| `ReportList.MatchesIgnoresQueryCase` | client/src/pages/Admin/Yearly/Progress.jsx:155-162 | Lower-casing either text query first does not change which reports pass, so matching is case-insensitive. |
| `ReportList.MatchingReports` | client/src/pages/Admin/Yearly/Progress.jsx:152-164 | Every report the filter keeps comes from `reports` and passes all criteria. |
| `ReportList.MatchingReportsExact` | client/src/pages/Admin/Yearly/Progress.jsx:152-164 | A passing report keeps all its copies and a failing one keeps none. The kept reports stay in their original relative order. |
| `ReportList.NoCriteriaKeepsAll` | client/src/pages/Admin/Yearly/Progress.jsx:154-162 | With no year and empty or unset text queries, the filter returns `reports` unchanged. |
| `ReportList.YearOnlyKeepsThatYear` | client/src/pages/Admin/Yearly/Progress.jsx:154 | With only a year set, a report is kept exactly when it is in `reports` and its `currentYear` equals that year. |
| `ReportList.YearCriterionNarrows` | client/src/pages/Admin/Yearly/Progress.jsx:163 | The criteria are a conjunction. Adding a year criterion only deletes reports from what the other criteria keep, and keeps the order. |
| `ReportList.YearFilterExample` | client/src/pages/Admin/Yearly/Progress.jsx:154 | Of reports from 2022 and 2023, the year 2023 keeps only the second. |
| `ReportList.InsertAt` | client/src/pages/Admin/Yearly/Progress.jsx:165-171 | One insertion step extends the sorted prefix by one element. It only permutes the array. |
| `ReportList.SortInPlace` | client/src/pages/Admin/Yearly/Progress.jsx:165-171 | After sorting in place, no pair of reports is out of order for the source's comparator. The array holds the same multiset of reports. |
| `ReportList.DeriveView` | client/src/pages/Admin/Yearly/Progress.jsx:152-171 | `filteredReports` holds each report as often as `reports` does if it passes the filter, and never otherwise. It is therefore a permutation of the filtered sub-list. With `"asc"` its years are non-decreasing. With any other order they are non-increasing. |
| `ReportList.DescendingExample` | client/src/pages/Admin/Yearly/Progress.jsx:165-171 | Reports from 2020 and 2021 in a descending view come out with 2021 first. |
| `ReportList.WithoutId` | client/src/pages/Admin/Yearly/Progress.jsx:41 | Every report left after removal came from the list and has a different `_id`. |
| `ReportList.WithoutIdExact` | client/src/pages/Admin/Yearly/Progress.jsx:41 | Removal keeps every copy of every report with another `_id`, in the same relative order. |
| `ReportList.WithoutUniqueIdDropsOne` | client/src/pages/Admin/Yearly/Progress.jsx:41 | When identifiers are unique and the `_id` is present, exactly one report is removed. |
| `ReportList.WithoutAbsentIdKeepsAll` | client/src/pages/Admin/Yearly/Progress.jsx:41 | Removing an `_id` no report has changes nothing. So marking the same report read twice is the same as once. |
| `ReportList.ViewState.constructor` | client/src/pages/Admin/Yearly/Progress.jsx:14-20 | The mount state has no reports, no selection and the popup closed. No criteria are set and the order is `"asc"`. |
| `ReportList.ViewState.MarkAsRead` | client/src/pages/Admin/Yearly/Progress.jsx:38-49 | On success, `reports` becomes the old list without the entries with that `_id`. On failure it is unchanged. Nothing else changes. |
| `ReportList.ViewState.ViewReport` | client/src/pages/Admin/Yearly/Progress.jsx:51-54 | The report becomes the selection and the popup opens. |
| `ReportList.ViewState.ClosePopup` | client/src/pages/Admin/Yearly/Progress.jsx:344 | Only the open flag is cleared. The selection stays, and the popup is never open without a selection. |
| `ReportList.ViewState.HandleSortChange` | client/src/pages/Admin/Yearly/Progress.jsx:56-58 | The sort order becomes the selected value. Nothing else changes. |
| `ReportList.ViewState.HandleFilterChange` | client/src/pages/Admin/Yearly/Progress.jsx:60-63 | The named filter field takes the new value. The other fields and the rest of the state are unchanged. |
| `Sequences.FilterCount` | client/src/pages/Admin/Yearly/Progress.jsx:152-153 | `filter` keeps every copy of an element that passes and none of one that fails. |
| `Sequences.FilterIsSubsequence` | client/src/pages/Admin/Yearly/Progress.jsx:152-153 | `filter` only deletes elements and keeps the order of the rest. |
| `Strings.ContainsIffOccurs` | client/src/pages/Admin/Yearly/Progress.jsx:156 | `includes` holds exactly when the query occurs at some position of the text. |
| `Strings.LowerIdempotent` | client/src/pages/Admin/Yearly/Progress.jsx:156 | Lower-casing an already lower-cased string changes nothing. |
| `Strings.JoinContainsItems` | client/src/pages/Admin/Yearly/Progress.jsx:103 | A joined string contains every item. |
| `Strings.IntToDecimalRoundTrip` | client/src/pages/Admin/Yearly/Progress.jsx:73 | The decimal text of the year reads back as that year. |
| `ReportDocument.ProjectIdShapeIndependent` | client/src/pages/Admin/Yearly/Progress.jsx:73 | A bare identifier and an embedded `{_id}` with the same non-empty value resolve to that value. This holds for the file name, the body line and the table cell. |
| `ReportDocument.ProjectIdCellCases` | client/src/pages/Admin/Yearly/Progress.jsx:270 | An empty bare identifier and a missing `projectId` show `N/A`; the missing one reads `undefined` in the download name. An embedded reference with an empty `_id` is the only value that cannot be shown. Every other value shows the same identifier as the download name. |
| `ReportDocument.Filename` | client/src/pages/Admin/Yearly/Progress.jsx:73 | The download name starts with the title and an underscore, and ends in `.pdf`. |
| `ReportDocument.FilenameYearRoundTrip` | client/src/pages/Admin/Yearly/Progress.jsx:73 | The year can always be read back from the download name, whatever the title and identifier contain. |
| `ReportDocument.FilenameExample` | client/src/pages/Admin/Yearly/Progress.jsx:73 | Title `Foo`, project `abc`, year 2024 give `Foo_abc_progressreport_year_2024.pdf`. |
| `ReportDocument.SameIdInNameAndBody` | client/src/pages/Admin/Yearly/Progress.jsx:73-101 | The identifier right after the title in the download name is the one printed in the "Project ID" line. |
| `ReportDocument.InvestigatorLineNamesEveryone` | client/src/pages/Admin/Yearly/Progress.jsx:103 | The "Principal Investigator" line names every investigator of the report. |
| `ReportDocument.AchievementRows` | client/src/pages/Admin/Yearly/Progress.jsx:122-129 | The table has exactly six rows, carrying the six fixed categories in the fixed order. |
| `ReportDocument.AchievementRowsRoundTrip` | client/src/pages/Admin/Yearly/Progress.jsx:122-129 | Every achievement text lands in its own row, so the achievements can be read back from the rows. |
| `ReportList.ViewState.SaveSelectedAsPdf` | client/src/pages/Admin/Yearly/Progress.jsx:303-341 | The export from the popup is the export of the selection, and while the popup is open it always yields a document named after the selected report. |
| `ReportDocument.SaveAsPdf` | client/src/pages/Admin/Yearly/Progress.jsx:69-145 | There is no document exactly when nothing is selected. Otherwise the document carries the selected report's download name and its six achievement rows. |

## Left out

- Fetching the reports, the PUT request of `markAsRead`, and the `loading` and `error` flags (lines 17, 22, 26-36) are network I/O. The request outcome is the `succeeded` parameter of `ViewState.MarkAsRead`.
- Toast notifications and navigation to the project dashboard (lines 42, 46, 65-67) are calls into other libraries.
- All drawing done by jsPDF is left out: coordinates, fonts, colours, the rule, word-wrapping by `splitTextToSize`, table styling and `doc.save` (lines 72-144). The fixed title, subtitle, headings and footer are part of that drawing. The model keeps the data handed to the library, in `PdfDocument`.
- JSX rendering, `useEffect`, the popup's detail list and the `isFilterOpen` toggle (lines 147-353) are presentation.
- `parseInt` on the year input is left out; the criterion is held already parsed. `toLowerCase` is modelled on ASCII letters only.
- The `researchArea` key of the initial filter state (line 20) is never read by the filter, so it is not modelled.
- `searchQuery` (line 18) is declared but never used.
- ViewState.MarkAsRead: the handler filters the `reports` value captured when the page last rendered. A fetch that finishes during the request could be overwritten; this interleaving is not modelled.
- SortInPlace: the stability of `Array.prototype.sort` is not stated; only order and permutation are proved.
- DeriveView: it is a method over the given state rather than a member of `ViewState`, because the page recomputes it from `reports`, `filters` and `sortOrder` on every render.
- ProjectIdCell: a `projectId` that is `null` (rather than missing) is not distinguished from a missing one; the page would write `null` instead of `undefined` into the download name.
- Report: every other field of a record is taken to be present. The page would throw on a missing `principalInvestigator` (lines 103, 159), `projectTitle` (line 156) or achievements (lines 123-128); only the popup's investigator line (line 313) guards against it.
- Report: `currentYear` is taken to be an integer of ordinary size. A JavaScript number outside that range, or with a fraction, would print in exponent or decimal-point form in the download name, and the comparator would subtract floating-point values.
- ProjectIdCell: an embedded reference with an empty `_id` would hand the object itself to React; the model returns `None` there and does not model what React does with it.

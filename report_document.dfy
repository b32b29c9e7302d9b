/** The data `saveAsPDF` hands to the PDF library for the selected report:
    the download name, the project-detail lines, the two wrapped text blocks
    (before wrapping) and the six rows of the achievements table. */
module ReportDocument {
  import opened Reports
  import opened Strings

  // ---- `projectId?._id || projectId`

  /** The value of `projectId?._id || projectId`: the embedded `_id` when it is
      a non-empty string, else `projectId` itself, which for an embedded
      reference is the project object and for a missing key `undefined`. */
  datatype ResolvedId = IdText(text: string) | ProjectObject | Undefined

  function ResolveProjectId(p: ProjectRef): ResolvedId {
    match p
    case Embedded(id) => if id != "" then IdText(id) else ProjectObject
    case Bare(value) => IdText(value)
    case Absent => Undefined
  }

  /** The resolved value as a template literal renders it. */
  function ProjectIdText(p: ProjectRef): string {
    match ResolveProjectId(p)
    case IdText(s) => s
    case ProjectObject => "[object Object]"
    case Undefined => "undefined"
  }

  /** The table's project-id cell, `projectId?._id || projectId || "N/A"`.
      `None` is the case where the project object itself would be handed to
      the renderer. */
  function ProjectIdCell(p: ProjectRef): Option<string> {
    match ResolveProjectId(p)
    case IdText(s) => if s != "" then Some(s) else Some("N/A")
    case ProjectObject => None
    case Undefined => Some("N/A")
  }

  /** Both shapes of `projectId` carrying the same non-empty identifier give
      that identifier, in the download name, in the body line and in the
      table cell alike. */
  lemma ProjectIdShapeIndependent(s: string)
    requires s != ""
    ensures ProjectIdText(Bare(s)) == ProjectIdText(Embedded(s)) == s
    ensures ProjectIdCell(Bare(s)) == ProjectIdCell(Embedded(s)) == Some(s)
  {
  }

  /** The cell shows "N/A" for an empty bare identifier and for a missing
      `projectId` (whose text in the download name is "undefined"), and fails
      to render exactly for an embedded reference without an `_id`; otherwise
      it shows the same text as the download name. */
  lemma ProjectIdCellCases(p: ProjectRef)
    ensures p == Bare("") || p == Absent ==> ProjectIdCell(p) == Some("N/A")
    ensures p == Absent ==> ProjectIdText(p) == "undefined"
    ensures ProjectIdCell(p).None? <==> p == Embedded("")
    ensures p != Bare("") && p != Embedded("") && p != Absent ==>
      ProjectIdCell(p) == Some(ProjectIdText(p))
  {
  }

  // ---- the download name

  const FilenameInfix: string := "_progressreport_year_"
  const FilenameSuffix: string := ".pdf"

  /** `${projectTitle}_${resolvedId}_progressreport_year_${currentYear}.pdf`. */
  function Filename(r: Report): (name: string)
    ensures StartsWith(name, r.projectTitle + "_")
    ensures |name| > 4 && name[|name| - 4..] == FilenameSuffix
  {
    var name := r.projectTitle + "_" + ProjectIdText(r.projectId) + FilenameInfix
                + IntToDecimal(r.currentYear) + FilenameSuffix;
    assert name[..|r.projectTitle| + 1] == r.projectTitle + "_";
    name
  }

  /** Reads the year back from a download name: the decimal number between
      the last `_` and the `.pdf` extension. */
  function YearFromFilename(name: string): Option<int> {
    if |name| >= 4 && name[|name| - 4..] == FilenameSuffix then
      var t := AfterLast(name[..|name| - 4], '_');
      if IsDecimal(t) then Some(DecimalValue(t)) else None
    else None
  }

  lemma DecimalHasNoUnderscore(n: int)
    ensures '_' !in IntToDecimal(n)
  {
    var s := IntToDecimal(n);
    if n < 0 {
      assert s == "-" + NatToDecimal(-n);
      assert forall i :: 1 <= i < |s| ==> s[i] == NatToDecimal(-n)[i - 1];
    }
  }

  /** Whatever the title and identifier contain, the year of the report can
      be read back from its download name. */
  lemma FilenameYearRoundTrip(r: Report)
    ensures YearFromFilename(Filename(r)) == Some(r.currentYear)
  {
    var name := Filename(r);
    var year := IntToDecimal(r.currentYear);
    var head := r.projectTitle + "_" + ProjectIdText(r.projectId) + "_progressreport_year";
    assert name[..|name| - 4] == head + ['_'] + year;
    DecimalHasNoUnderscore(r.currentYear);
    AfterLastOfSuffix(head, '_', year);
    IntToDecimalRoundTrip(r.currentYear);
  }

  lemma Decimal2024()
    ensures IntToDecimal(2024) == "2024"
  {
    assert DigitChar(2) == '2' && DigitChar(0) == '0' && DigitChar(4) == '4';
    assert NatToDecimal(2) == "2";
    assert NatToDecimal(20) == "2" + "0";
    assert NatToDecimal(202) == "20" + "2";
    assert NatToDecimal(2024) == "202" + "4";
  }

  /** A report titled "Foo" of project "abc" for 2024 downloads as
      `Foo_abc_progressreport_year_2024.pdf`. */
  lemma FilenameExample(r: Report)
    requires r.projectTitle == "Foo" && r.projectId == Bare("abc") && r.currentYear == 2024
    ensures Filename(r) == "Foo_abc_progressreport_year_2024.pdf"
  {
    Decimal2024();
    calc {
      Filename(r);
      "Foo" + "_" + "abc" + FilenameInfix + "2024" + FilenameSuffix;
      { assert "Foo" + "_" + "abc" == "Foo_abc"; }
      "Foo_abc" + FilenameInfix + "2024" + FilenameSuffix;
      { assert "Foo_abc" + FilenameInfix == "Foo_abc_progressreport_year_"; }
      "Foo_abc_progressreport_year_" + "2024" + FilenameSuffix;
      { assert "Foo_abc_progressreport_year_" + "2024" == "Foo_abc_progressreport_year_2024"; }
      "Foo_abc_progressreport_year_2024" + FilenameSuffix;
      "Foo_abc_progressreport_year_2024.pdf";
    }
  }

  // ---- the achievements table

  datatype AchievementRow = AchievementRow(category: string, details: string)

  const AchievementCategories: seq<string> := [
    "Summary of Progress",
    "New Observations",
    "Innovations",
    "Application Potential (Long Term)",
    "Application Potential (Immediate)",
    "Other Achievements"
  ]

  /** `achievementsData`: one row per category, in the fixed order. */
  function AchievementRows(a: Achievements): (rows: seq<AchievementRow>)
    ensures |rows| == |AchievementCategories| == 6
    ensures forall i :: 0 <= i < |rows| ==> rows[i].category == AchievementCategories[i]
  {
    [ AchievementRow(AchievementCategories[0], a.summaryOfProgress),
      AchievementRow(AchievementCategories[1], a.newObservations),
      AchievementRow(AchievementCategories[2], a.innovations),
      AchievementRow(AchievementCategories[3], a.applicationPotential.longTerm),
      AchievementRow(AchievementCategories[4], a.applicationPotential.immediate),
      AchievementRow(AchievementCategories[5], a.otherAchievements) ]
  }

  /** Reads the achievements back from a table with the six fixed categories. */
  function AchievementsFromRows(rows: seq<AchievementRow>): Option<Achievements> {
    if |rows| == 6 && forall i :: 0 <= i < 6 ==> rows[i].category == AchievementCategories[i] then
      Some(Achievements(rows[0].details, rows[1].details, rows[2].details,
                        ApplicationPotential(rows[3].details, rows[4].details),
                        rows[5].details))
    else None
  }

  /** The table loses nothing: every achievement text lands in its own row. */
  lemma AchievementRowsRoundTrip(a: Achievements)
    ensures AchievementsFromRows(AchievementRows(a)) == Some(a)
  {
  }

  // ---- the whole document

  datatype PdfDocument = PdfDocument(
    filename: string,
    projectTitleLine: string,
    projectIdLine: string,
    currentYearLine: string,
    investigatorLine: string,
    researchAreaLine: string,
    objectivesText: string,
    methodologyText: string,
    achievementRows: seq<AchievementRow>)

  function DocumentFor(r: Report): PdfDocument {
    PdfDocument(
      Filename(r),
      "Project Title: " + r.projectTitle,
      "Project ID: " + ProjectIdText(r.projectId),
      "Current Year: " + IntToDecimal(r.currentYear),
      "Principal Investigator: " + Join(r.principalInvestigator, ", "),
      "Research Area: " + r.researchArea,
      "Approved Objectives: " + Join(r.approvedObjectives, ", "),
      "Methodology: " + r.methodology,
      AchievementRows(r.researchAchievements))
  }

  /** `saveAsPDF`: nothing when no report is selected, else the document of
      the selected report, named after it and carrying its six achievement
      rows. */
  function SaveAsPdf(selectedReport: Option<Report>): (doc: Option<PdfDocument>)
    ensures doc.None? <==> selectedReport.None?
    ensures doc.Some? ==> doc.value.filename == Filename(selectedReport.value)
    ensures doc.Some? ==> |doc.value.achievementRows| == 6
    ensures doc.Some? ==>
      AchievementsFromRows(doc.value.achievementRows) == Some(selectedReport.value.researchAchievements)
  {
    if selectedReport.None? then None
    else
      AchievementRowsRoundTrip(selectedReport.value.researchAchievements);
      Some(DocumentFor(selectedReport.value))
  }

  /** The identifier in the download name is the one printed in the
      "Project ID" line, right after the title and its underscore. */
  lemma SameIdInNameAndBody(r: Report)
    ensures var id, k := ProjectIdText(r.projectId), |r.projectTitle| + 1;
      && k + |id| <= |Filename(r)|
      && Filename(r)[k..k + |id|] == id
      && DocumentFor(r).projectIdLine == "Project ID: " + id
  {
    var id, k := ProjectIdText(r.projectId), |r.projectTitle| + 1;
    var name := Filename(r);
    assert name == (r.projectTitle + "_") + id + (FilenameInfix + IntToDecimal(r.currentYear) + FilenameSuffix);
  }

  /** The investigator line names every investigator of the report. */
  lemma InvestigatorLineNamesEveryone(r: Report, i: int)
    requires 0 <= i < |r.principalInvestigator|
    ensures Contains(DocumentFor(r).investigatorLine, r.principalInvestigator[i])
  {
    JoinContainsItems(r.principalInvestigator, ", ", i);
    ContainsInLonger("Principal Investigator: ", Join(r.principalInvestigator, ", "),
                     r.principalInvestigator[i]);
  }
}

/**
 * The claim record (`MonthlyClaim`), its derived total and its one-line, comma-separated
 * CSV codec: `ToCsv`, `GetCsvHeaders` and `FromCsv`.
 */
module MonthlyClaims {
  import opened Wrappers
  import opened Strings
  import opened Numerals
  import opened Decimals
  import opened DateTimes

  /** The overall status of a claim. */
  datatype ClaimStatus = Pending | Approved | Rejected | UnderReview

  /** The decision of one reviewer tier. */
  datatype ApprovalStatus = Pending | Approved | Rejected

  /** One reviewer tier: its status, who decided, when, and the notes given. */
  datatype TierReview = TierReview(
    status: ApprovalStatus,
    reviewBy: Option<string>,
    reviewDate: Option<DateTime>,
    reviewNotes: Option<string>)

  /** A tier nobody has reviewed yet: what a new claim object holds. */
  const Unreviewed: TierReview := TierReview(ApprovalStatus.Pending, None, None, None)

  datatype MonthlyClaim = MonthlyClaim(
    id: int,
    title: Option<string>,
    description: Option<string>,
    lecturerName: string,
    hoursWorked: Decimal,
    hourlyRate: Decimal,
    additionalNotes: Option<string>,
    status: ClaimStatus,
    submittedDate: DateTime,
    reviewedBy: Option<string>,
    reviewedDate: Option<DateTime>,
    reviewNotes: Option<string>,
    coordinator: TierReview,
    administrator: TierReview,
    hr: TierReview)
  {
    /** The amount claimed: derived from hours and rate, never stored. */
    function TotalAmount(): (total: Decimal)
      ensures Value(total) == Value(hoursWorked) * Value(hourlyRate)
    {
      Mul(hoursWorked, hourlyRate)
    }
  }

  /** 20 hours at 160 an hour come to 3200. */
  lemma TotalAmountExample(c: MonthlyClaim)
    requires c.hoursWorked == FromInt(20) && c.hourlyRate == FromInt(160)
    ensures Value(c.TotalAmount()) == 3200.0
  {
  }

  // ---------------------------------------------------------------------------
  // Status names
  // ---------------------------------------------------------------------------

  /** `status.ToString()` */
  function StatusName(s: ClaimStatus): string {
    match s
    case Pending => "Pending"
    case Approved => "Approved"
    case Rejected => "Rejected"
    case UnderReview => "UnderReview"
  }

  /**
   * `Enum.TryParse<ClaimStatus>(name, out s) ? Some(s) : None`: white space around the name is
   * ignored, and what remains must be a member name, in its own letter case.
   */
  function ParseStatus(name: string): (r: Option<ClaimStatus>)
    ensures r.Some? ==> StatusName(r.value) == Trim(name)
    ensures r.None? ==> forall s: ClaimStatus :: StatusName(s) != Trim(name)
  {
    var t := Trim(name);
    if t == "Pending" then Some(ClaimStatus.Pending)
    else if t == "Approved" then Some(ClaimStatus.Approved)
    else if t == "Rejected" then Some(ClaimStatus.Rejected)
    else if t == "UnderReview" then Some(ClaimStatus.UnderReview)
    else None
  }

  /** Every status name reads back as its status. */
  lemma ParseStatusName(s: ClaimStatus)
    ensures ParseStatus(StatusName(s)) == Some(s)
  {
    TrimUntouched(StatusName(s));
  }

  /** A status name with white space around it, such as " Approved", still reads as its status. */
  lemma ParseStatusPadded(s: ClaimStatus, pad: string)
    requires forall k :: 0 <= k < |pad| ==> IsWhiteSpace(pad[k])
    ensures ParseStatus(pad + StatusName(s) + pad) == Some(s)
  {
    TrimPadded(pad, StatusName(s));
  }

  /** The LINQ filter `c => c.Status == status`. */
  function WithStatus(status: ClaimStatus): MonthlyClaim -> bool {
    (c: MonthlyClaim) => c.status == status
  }

  // ---------------------------------------------------------------------------
  // Encoding
  // ---------------------------------------------------------------------------

  const CsvColumnNames: seq<string> := [
    "Id", "Title", "Description", "LecturerName", "HoursWorked", "HourlyRate", "TotalAmount",
    "Status", "SubmittedDate", "ReviewedBy", "ReviewedDate", "ReviewNotes", "AdditionalNotes"]

  /** `MonthlyClaim.GetCsvHeaders()`: the column names joined by commas. */
  function GetCsvHeaders(): string {
    Join(CsvColumnNames, ',')
  }

  /** `{date:yyyy-MM-dd HH:mm}` of a nullable date: null prints nothing. */
  function FormatOptionalDate(d: Option<DateTime>): string {
    match d
    case None => ""
    case Some(t) => DateTimes.Format(t)
  }

  /** `s?.Replace(",", ";")` as interpolation prints it. */
  function EscapeCommas(s: Option<string>): string {
    match s
    case None => ""
    case Some(t) => ReplaceChar(t, ',', ';')
  }

  /** The thirteen columns `ToCsv` writes, in order. */
  function CsvFields(c: MonthlyClaim): (fields: seq<string>)
    ensures |fields| == |CsvColumnNames|
  {
    [ FormatInt(c.id), TextOf(c.title), TextOf(c.description), c.lecturerName,
      Decimals.Format(c.hoursWorked), Decimals.Format(c.hourlyRate), Decimals.Format(c.TotalAmount()),
      StatusName(c.status), DateTimes.Format(c.submittedDate), TextOf(c.reviewedBy),
      FormatOptionalDate(c.reviewedDate), EscapeCommas(c.reviewNotes), EscapeCommas(c.additionalNotes) ]
  }

  /** `claim.ToCsv()` */
  function ToCsv(c: MonthlyClaim): string {
    Join(CsvFields(c), ',')
  }

  // ---------------------------------------------------------------------------
  // Decoding
  // ---------------------------------------------------------------------------

  /** What `FromCsv` does: return a claim, return null, or throw `IndexOutOfRangeException`. */
  datatype Decoded = Record(claim: MonthlyClaim) | NullRecord | IndexOutOfRange

  /** The object initializer of `FromCsv`, given at least nine values. */
  function DecodeValues(values: seq<string>, now: DateTime): MonthlyClaim
    requires |values| >= 9
  {
    MonthlyClaim(
      id := ParseInt32(values[0]).GetOr(0),
      title := Some(values[1]),
      description := Some(values[2]),
      lecturerName := values[3],
      hoursWorked := Decimals.Parse(values[4]).GetOr(Decimals.Zero),
      hourlyRate := Decimals.Parse(values[5]).GetOr(Decimals.Zero),
      additionalNotes := Some(if |values| > 12 then ReplaceChar(values[12], ';', ',') else ""),
      status := ParseStatus(values[7]).GetOr(ClaimStatus.Pending),
      submittedDate := DateTimes.Parse(values[8]).GetOr(now),
      reviewedBy := Some(if |values| > 9 then values[9] else ""),
      reviewedDate := if |values| > 10 then DateTimes.Parse(values[10]) else None,
      reviewNotes := Some(if |values| > 11 then ReplaceChar(values[11], ';', ',') else ""),
      coordinator := Unreviewed,
      administrator := Unreviewed,
      hr := Unreviewed)
  }

  /**
   * `MonthlyClaim.FromCsv(line)` as written: null below eight values, but the initializer reads
   * `values[8]`, so a line of exactly eight values throws.
   */
  function FromCsv(csvLine: string, now: DateTime): (r: Decoded)
    ensures r.Record? <==> |Split(csvLine, ',')| >= 9
    ensures r.NullRecord? <==> |Split(csvLine, ',')| < 8
  {
    var values := Split(csvLine, ',');
    if |values| < 8 then NullRecord
    else if |values| < 9 then IndexOutOfRange
    else Record(DecodeValues(values, now))
  }

  /** The guard that was evidently meant: null unless all nine required values are there. */
  function FromCsvGuarded(csvLine: string, now: DateTime): (r: Decoded)
    ensures !r.IndexOutOfRange?
    ensures r.Record? <==> |Split(csvLine, ',')| >= 9
  {
    var values := Split(csvLine, ',');
    if |values| < 9 then NullRecord else Record(DecodeValues(values, now))
  }

  // ---------------------------------------------------------------------------
  // Properties of the codec
  // ---------------------------------------------------------------------------

  /** The outcome of `FromCsv` depends only on the number of commas in the line. */
  lemma FromCsvOutcome(csvLine: string, now: DateTime)
    ensures FromCsv(csvLine, now).NullRecord? <==> Occurrences(csvLine, ',') < 7
    ensures FromCsv(csvLine, now).IndexOutOfRange? <==> Occurrences(csvLine, ',') == 7
    ensures FromCsv(csvLine, now).Record? <==> Occurrences(csvLine, ',') >= 8
  {
    SplitCount(csvLine, ',');
  }

  /** A line of exactly eight values makes `FromCsv` throw instead of returning null. */
  lemma FromCsvEightValuesThrows(values: seq<string>, now: DateTime)
    requires |values| == 8 && forall k :: 0 <= k < |values| ==> ',' !in values[k]
    ensures FromCsv(Join(values, ','), now) == IndexOutOfRange
  {
    SplitJoin(values, ',');
  }

  /** With the intended guard the same line is rejected with null. */
  lemma FromCsvGuardedEightValues(values: seq<string>, now: DateTime)
    requires |values| == 8 && forall k :: 0 <= k < |values| ==> ',' !in values[k]
    ensures FromCsvGuarded(Join(values, ','), now) == NullRecord
  {
    SplitJoin(values, ',');
  }

  /** The TotalAmount column is never read: a decoded claim does not depend on it. */
  lemma TotalAmountColumnIgnored(values: seq<string>, total: string, now: DateTime)
    requires |values| >= 9
    ensures DecodeValues(values[6 := total], now) == DecodeValues(values, now)
  {
  }

  /** Values that do not parse fall back to defaults; missing trailing columns decode as empty. */
  lemma FromCsvFallbacks(values: seq<string>, now: DateTime)
    requires |values| >= 9
    ensures var c := DecodeValues(values, now);
      && (ParseInt32(values[0]).None? ==> c.id == 0)
      && (Decimals.Parse(values[4]).None? ==> c.hoursWorked == Decimals.Zero)
      && (Decimals.Parse(values[5]).None? ==> c.hourlyRate == Decimals.Zero)
      && (ParseStatus(values[7]).None? ==> c.status == ClaimStatus.Pending)
      && (DateTimes.Parse(values[8]).None? ==> c.submittedDate == now)
      && (|values| <= 9 ==> c.reviewedBy == Some(""))
      && (|values| <= 10 || DateTimes.Parse(values[10]).None? <==> c.reviewedDate.None?)
      && (|values| <= 11 ==> c.reviewNotes == Some(""))
      && (|values| <= 12 ==> c.additionalNotes == Some(""))
      && c.coordinator == c.administrator == c.hr == Unreviewed
  {
  }

  lemma NoCommaInInt(i: int)
    ensures ',' !in FormatInt(i)
  {
    var s := FormatInt(i);
    assert forall k | 0 <= k < |s| :: s[k] != ',';
  }

  lemma NoCommaInDecimal(d: Decimal)
    ensures ',' !in Decimals.Format(d)
  {
    var s := Decimals.Format(d);
    Decimals.FormatChars(d);
    assert forall k | 0 <= k < |s| :: s[k] != ',';
  }

  lemma NoCommaInDate(d: Option<DateTime>)
    ensures ',' !in FormatOptionalDate(d)
  {
    if d.Some? {
      var s := DateTimes.Format(d.value);
      assert forall k | 0 <= k < |s| :: s[k] != ',';
    }
  }

  /** The text fields `ToCsv` writes without escaping; a comma in one of them shifts every later column. */
  predicate UnescapedTextHasNoComma(c: MonthlyClaim) {
    && ',' !in TextOf(c.title)
    && ',' !in TextOf(c.description)
    && ',' !in c.lecturerName
    && ',' !in TextOf(c.reviewedBy)
  }

  /** No column of the line holds a comma, as long as the unescaped text fields hold none. */
  lemma CsvFieldsHaveNoComma(c: MonthlyClaim)
    requires UnescapedTextHasNoComma(c)
    ensures forall k :: 0 <= k < |CsvFields(c)| ==> ',' !in CsvFields(c)[k]
  {
    NoCommaInInt(c.id);
    NoCommaInDecimal(c.hoursWorked);
    NoCommaInDecimal(c.hourlyRate);
    NoCommaInDecimal(c.TotalAmount());
    NoCommaInDate(Some(c.submittedDate));
    NoCommaInDate(c.reviewedDate);
    NoCommaEscaped(c.reviewNotes);
    NoCommaEscaped(c.additionalNotes);
    NoCommaInStatus(c.status);
    NoCommaInColumns(
      FormatInt(c.id), TextOf(c.title), TextOf(c.description), c.lecturerName,
      Decimals.Format(c.hoursWorked), Decimals.Format(c.hourlyRate), Decimals.Format(c.TotalAmount()),
      StatusName(c.status), DateTimes.Format(c.submittedDate), TextOf(c.reviewedBy),
      FormatOptionalDate(c.reviewedDate), EscapeCommas(c.reviewNotes), EscapeCommas(c.additionalNotes));
  }

  lemma NoCommaInColumns(f0: string, f1: string, f2: string, f3: string, f4: string, f5: string, f6: string,
                         f7: string, f8: string, f9: string, f10: string, f11: string, f12: string)
    requires ',' !in f0 && ',' !in f1 && ',' !in f2 && ',' !in f3 && ',' !in f4 && ',' !in f5 && ',' !in f6
    requires ',' !in f7 && ',' !in f8 && ',' !in f9 && ',' !in f10 && ',' !in f11 && ',' !in f12
    ensures var fields := [f0, f1, f2, f3, f4, f5, f6, f7, f8, f9, f10, f11, f12];
      forall k :: 0 <= k < |fields| ==> ',' !in fields[k]
  {
  }

  lemma NoCommaInStatus(status: ClaimStatus)
    ensures ',' !in StatusName(status)
  {
    var s := StatusName(status);
    assert forall k | 0 <= k < |s| :: 'A' <= s[k] <= 'z';
  }

  lemma NoCommaEscaped(s: Option<string>)
    ensures ',' !in EscapeCommas(s)
  {
    if s.Some? {
      ReplaceRemoves(s.value, ',', ';');
    }
  }

  /**
   * Header and line line up: both split into the same thirteen columns in the same order,
   * the line holding exactly the fields of the claim, with commas in both notes written as ';'.
   */
  lemma ToCsvColumns(c: MonthlyClaim)
    requires UnescapedTextHasNoComma(c)
    ensures Split(GetCsvHeaders(), ',') == CsvColumnNames
    ensures Split(ToCsv(c), ',') == CsvFields(c)
    ensures |Split(ToCsv(c), ',')| == |Split(GetCsvHeaders(), ',')| == 13
    ensures Split(ToCsv(c), ',')[11] == ReplaceChar(TextOf(c.reviewNotes), ',', ';')
    ensures Split(ToCsv(c), ',')[12] == ReplaceChar(TextOf(c.additionalNotes), ',', ';')
  {
    HeaderColumns();
    CsvFieldsHaveNoComma(c);
    SplitJoin(CsvFields(c), ',');
  }

  lemma HeaderColumns()
    ensures Split(GetCsvHeaders(), ',') == CsvColumnNames
  {
    ColumnNamesHaveNoComma();
    SplitJoin(CsvColumnNames, ',');
  }

  lemma ColumnNamesHaveNoComma()
    ensures forall k :: 0 <= k < |CsvColumnNames| ==> ',' !in CsvColumnNames[k]
  {
    var names := CsvColumnNames;
    assert ',' !in names[0] && ',' !in names[1] && ',' !in names[2] && ',' !in names[3];
    assert ',' !in names[4] && ',' !in names[5] && ',' !in names[6] && ',' !in names[7];
    assert ',' !in names[8] && ',' !in names[9] && ',' !in names[10];
    assert ',' !in names[11] && ',' !in names[12];
  }

  /** Everything a claim can rely on when it is written to a line and read back. */
  predicate RoundTripSafe(c: MonthlyClaim) {
    && InInt32(c.id)
    && UnescapedTextHasNoComma(c)
    && ';' !in TextOf(c.reviewNotes)
    && ';' !in TextOf(c.additionalNotes)
  }

  function TruncateOptional(d: Option<DateTime>): Option<DateTime> {
    match d
    case None => None
    case Some(t) => Some(TruncateToMinute(t))
  }

  /**
   * `FromCsv(ToCsv(c))` gives back the id, the text fields (null read back as empty), hours,
   * rate, status, reviewer and both notes; the dates come back truncated to the minute, and the
   * three tiers, which the line does not carry, come back unreviewed.
   */
  lemma FromCsvToCsv(c: MonthlyClaim, now: DateTime)
    requires RoundTripSafe(c)
    ensures FromCsv(ToCsv(c), now) == Record(MonthlyClaim(
      c.id, Some(TextOf(c.title)), Some(TextOf(c.description)), c.lecturerName,
      c.hoursWorked, c.hourlyRate, Some(TextOf(c.additionalNotes)), c.status,
      TruncateToMinute(c.submittedDate), Some(TextOf(c.reviewedBy)), TruncateOptional(c.reviewedDate),
      Some(TextOf(c.reviewNotes)), Unreviewed, Unreviewed, Unreviewed))
  {
    ToCsvColumns(c);
    var values := CsvFields(c);
    ParseFormatInt(c.id);
    Decimals.ParseFormat(c.hoursWorked);
    Decimals.ParseFormat(c.hourlyRate);
    ParseStatusName(c.status);
    DateTimes.ParseFormat(c.submittedDate);
    if c.reviewedDate.Some? {
      DateTimes.ParseFormat(c.reviewedDate.value);
    } else {
      assert values[10] == "";
      assert DateTimes.Parse("") == None by {
        assert Split("", ' ') == [""];
      }
    }
    ReplaceBack(TextOf(c.reviewNotes), ',', ';');
    ReplaceBack(TextOf(c.additionalNotes), ',', ';');
  }

  /**
   * Whatever the text fields hold, a written line decodes to a claim with the same id: the id
   * column is first and holds no comma, and the line has at least thirteen values.
   */
  lemma FromCsvToCsvId(c: MonthlyClaim, now: DateTime)
    requires InInt32(c.id)
    ensures FromCsv(ToCsv(c), now).Record?
    ensures FromCsv(ToCsv(c), now).claim.id == c.id
  {
    NoCommaInInt(c.id);
    SplitJoinFirst(CsvFields(c), ',');
    SplitJoinCount(CsvFields(c), ',');
    ParseFormatInt(c.id);
  }

  /** A written line holds at least the twelve commas between its thirteen columns. */
  lemma ToCsvCommas(c: MonthlyClaim)
    ensures Occurrences(ToCsv(c), ',') >= 12
  {
    JoinOccurrences(CsvFields(c), ',');
  }

  // ---------------------------------------------------------------------------
  // The line of the `FromCsv` unit test
  // ---------------------------------------------------------------------------

  /** The nineteen comma-separated values of the line the `FromCsv` unit test decodes. */
  const TestLineValues: seq<string> := [
    "1", "Monthly Report", "Work done in November", "John Doe", "10", "2", "20", "Pending",
    "2025-11-21 14:30", "Coordinator1", "2025-11-22 10:00", "Looks good", "Admin1",
    "2025-11-23 15:00", "Approved", "HR1", "2025-11-24 12:00", "Final check", "No issues"]

  /**
   * The unit test's line decodes to claim 1, "Monthly Report", 10 hours at 2, pending, submitted
   * 2025-11-21 14:30. Its twelfth value, "Looks good", lands in ReviewNotes: the coordinator
   * tier's notes stay empty, since this `FromCsv` reads the thirteen-column layout.
   */
  lemma FromCsvTestLine(now: DateTime)
    ensures var r := FromCsv(Join(TestLineValues, ','), now);
      && r.Record?
      && r.claim.id == 1
      && r.claim.title == Some("Monthly Report")
      && Value(r.claim.hoursWorked) == 10.0
      && Value(r.claim.hourlyRate) == 2.0
      && r.claim.status == ClaimStatus.Pending
      && r.claim.submittedDate == DateTimeParts(2025, 11, 21, 14, 30, 0)
      && r.claim.reviewNotes == Some("Looks good")
      && r.claim.coordinator.reviewNotes == None
  {
    TestLineHasNoComma();
    FromCsvJoined(TestLineValues, now);
    DecodeTestLineValues(now);
  }

  /** Nine or more comma-free values joined by commas decode value by value. */
  lemma FromCsvJoined(values: seq<string>, now: DateTime)
    requires |values| >= 9 && forall k :: 0 <= k < |values| ==> ',' !in values[k]
    ensures FromCsv(Join(values, ','), now) == Record(DecodeValues(values, now))
  {
    SplitJoin(values, ',');
  }

  /** Decoding reads the id, title, hours, rate, status, submission date and review notes from their columns. */
  lemma DecodedColumns(values: seq<string>, now: DateTime, id: int, hours: Decimal, rate: Decimal,
                       status: ClaimStatus, submitted: DateTime)
    requires |values| >= 12
    requires ParseInt32(values[0]) == Some(id)
    requires Decimals.Parse(values[4]) == Some(hours) && Decimals.Parse(values[5]) == Some(rate)
    requires ParseStatus(values[7]) == Some(status) && DateTimes.Parse(values[8]) == Some(submitted)
    requires ';' !in values[11]
    ensures var c := DecodeValues(values, now);
      && c.id == id && c.title == Some(values[1])
      && c.hoursWorked == hours && c.hourlyRate == rate
      && c.status == status && c.submittedDate == submitted
      && c.reviewNotes == Some(values[11]) && c.coordinator.reviewNotes == None
  {
    ReplaceAbsent(values[11], ';', ',');
  }

  lemma DecodeTestLineValues(now: DateTime)
    ensures var c := DecodeValues(TestLineValues, now);
      && c.id == 1
      && c.title == Some("Monthly Report")
      && Value(c.hoursWorked) == 10.0
      && Value(c.hourlyRate) == 2.0
      && c.status == ClaimStatus.Pending
      && c.submittedDate == DateTimeParts(2025, 11, 21, 14, 30, 0)
      && c.reviewNotes == Some("Looks good")
      && c.coordinator.reviewNotes == None
  {
    TestLineColumns();
    ParseTestNumbers();
    ParseTestDate();
    DecodedColumns(TestLineValues, now, 1, FromInt(10), FromInt(2), ClaimStatus.Pending,
                   DateTimeParts(2025, 11, 21, 14, 30, 0));
  }

  lemma TestLineColumns()
    ensures |TestLineValues| == 19
    ensures TestLineValues[0] == "1" && TestLineValues[1] == "Monthly Report"
    ensures TestLineValues[4] == "10" && TestLineValues[5] == "2" && TestLineValues[7] == "Pending"
    ensures TestLineValues[8] == "2025-11-21 14:30" && TestLineValues[11] == "Looks good"
    ensures ParseStatus("Pending") == Some(ClaimStatus.Pending) && ';' !in "Looks good"
  {
  }

  lemma ParseTestNumbers()
    ensures ParseInt32("1") == Some(1)
    ensures Decimals.Parse("10") == Some(FromInt(10))
    ensures Decimals.Parse("2") == Some(FromInt(2))
  {
    ParseFormatInt(1);
    assert FormatInt(1) == "1";
    Decimals.ParseFormat(FromInt(10));
    assert NatToDigits(10) == "10";
    assert Decimals.Format(FromInt(10)) == "10";
    Decimals.ParseFormat(FromInt(2));
    assert Decimals.Format(FromInt(2)) == "2";
  }

  lemma ParseTestDate()
    ensures DateTimes.Parse("2025-11-21 14:30") == Some(DateTimeParts(2025, 11, 21, 14, 30, 0))
  {
    var d: DateTime := DateTimeParts(2025, 11, 21, 14, 30, 0);
    FormatTestDate();
    ParseFormatted(d, "2025-11-21 14:30");
  }

  /** A text written for a moment on the minute reads back as that moment. */
  lemma ParseFormatted(d: DateTime, s: string)
    requires DateTimes.Format(d) == s && d.second == 0
    ensures DateTimes.Parse(s) == Some(d)
  {
    DateTimes.ParseFormat(d);
  }

  lemma TestLineHasNoComma()
    ensures forall k :: 0 <= k < |TestLineValues| ==> ',' !in TestLineValues[k]
  {
    forall k | 0 <= k < |TestLineValues| ensures ',' !in TestLineValues[k] {
    }
  }

  lemma TestDateDigits()
    ensures Digits(2025, 4) == "2025" && Digits(11, 2) == "11" && Digits(21, 2) == "21"
    ensures Digits(14, 2) == "14" && Digits(30, 2) == "30"
  {
    assert NatToDigits(2025) == "2025";
  }

  lemma FormatTestDate()
    ensures DateTimes.Format(DateTimeParts(2025, 11, 21, 14, 30, 0)) == "2025-11-21 14:30"
  {
    var d: DateTime := DateTimeParts(2025, 11, 21, 14, 30, 0);
    TestDateDigits();
    FormatOfFields(d, "2025", "11", "21", "14", "30");
    TestDateText();
  }

  lemma TestDateText()
    ensures "2025" + "-" + "11" + "-" + "21" + " " + "14" + ":" + "30" == "2025-11-21 14:30"
  {
  }
}

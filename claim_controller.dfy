/**
 * `ClaimController`: the process-wide list of claims and the id counter, with the actions
 * that create, look up, edit, delete, export and import claims.
 */
module ClaimController {
  import opened Wrappers
  import opened Strings
  import opened Numerals
  import opened DateTimes
  import opened MonthlyClaims
  import opened Linq
  import opened Identities
  import opened TextExport

  /** `claims.FirstOrDefault(c => c.Id == id)`, as the position of the first match. */
  function FirstWithId(claims: seq<MonthlyClaim>, id: int): (r: Option<nat>)
    ensures r.Some? ==> r.value < |claims| && claims[r.value].id == id
    ensures r.Some? ==> forall j :: 0 <= j < r.value ==> claims[j].id != id
    ensures r.None? <==> forall j :: 0 <= j < |claims| ==> claims[j].id != id
  {
    FirstWith(claims, (c: MonthlyClaim) => c.id == id)
  }

  /** Ids are positive, below the counter, and ascend in list order (so no two claims share one). */
  predicate IdsAscending(claims: seq<MonthlyClaim>, nextClaimId: int) {
    && (forall i, j :: 0 <= i < j < |claims| ==> claims[i].id < claims[j].id)
    && (forall i :: 0 <= i < |claims| ==> 1 <= claims[i].id < nextClaimId)
    && 1 <= nextClaimId
  }

  /** The claim `Create` builds from the form: only its five editable fields are taken over. */
  function NewClaim(model: MonthlyClaim, id: int, lecturerName: string, now: DateTime): MonthlyClaim {
    MonthlyClaim(
      id, model.title, model.description, lecturerName, model.hoursWorked, model.hourlyRate,
      model.additionalNotes, ClaimStatus.Pending, now, None, None, None, Unreviewed, Unreviewed, Unreviewed)
  }

  /** The claim after `Edit` copied the five editable fields of the form onto it. */
  function Edited(c: MonthlyClaim, model: MonthlyClaim): MonthlyClaim {
    c.(title := model.title, description := model.description, hoursWorked := model.hoursWorked,
       hourlyRate := model.hourlyRate, additionalNotes := model.additionalNotes)
  }

  /**
   * Editing keeps who submitted the claim, when, its id, status and review history; the last
   * edit wins; submitting the claim's own values changes nothing; the total follows the new
   * hours and rate.
   */
  lemma EditedClaim(c: MonthlyClaim, model: MonthlyClaim, later: MonthlyClaim)
    ensures var e := Edited(c, model);
      && (e.id, e.lecturerName, e.status, e.submittedDate) == (c.id, c.lecturerName, c.status, c.submittedDate)
      && (e.reviewedBy, e.reviewedDate, e.reviewNotes) == (c.reviewedBy, c.reviewedDate, c.reviewNotes)
      && (e.coordinator, e.administrator, e.hr) == (c.coordinator, c.administrator, c.hr)
    ensures Edited(Edited(c, model), later) == Edited(c, later)
    ensures Edited(c, c) == c
    ensures Decimals.Value(Edited(c, model).TotalAmount()) == Decimals.Value(model.hoursWorked) * Decimals.Value(model.hourlyRate)
  {
  }

  /** `_claims.Where(c => c.LecturerName.Contains(userName) || c.LecturerName == userEmail)` */
  predicate OwnsClaim(user: Identity, c: MonthlyClaim) {
    Contains(c.lecturerName, DisplayName(user)) || Some(c.lecturerName) == user.name
  }

  /** A claim a user submitted is always among the claims `ExportMyClaims` gives that user. */
  lemma CreatorOwnsClaim(model: MonthlyClaim, id: int, user: Identity, now: DateTime)
    ensures OwnsClaim(user, NewClaim(model, id, DisplayName(user), now))
  {
    var n := DisplayName(user);
    assert n <= n;
  }

  /** What an import leaves behind: the claims added, the lines skipped, and whether it threw. */
  datatype ImportRun = ImportRun(added: seq<MonthlyClaim>, skipped: nat, failed: bool)

  /** An imported claim: a fresh id and the import time replace what the line said. */
  function Imported(c: MonthlyClaim, id: int, now: DateTime): MonthlyClaim {
    c.(id := id, submittedDate := now)
  }

  /** The loop body of `ImportClaims` for one line read after the header. */
  function ImportStep(r: ImportRun, line: string, nextClaimId: int, now: DateTime): ImportRun {
    if r.failed || IsNullOrWhiteSpace(Some(line)) then r
    else ImportDecoded(r, FromCsv(line, now), nextClaimId, now)
  }

  /** What one decoded line does: a record with id 0 is added, the exception stops the import. */
  function ImportDecoded(r: ImportRun, decoded: Decoded, nextClaimId: int, now: DateTime): ImportRun {
    match decoded
    case IndexOutOfRange => r.(failed := true)
    case NullRecord => r.(skipped := r.skipped + 1)
    case Record(c) =>
      if c.id == 0 then r.(added := r.added + [Imported(c, nextClaimId + |r.added|, now)])
      else r.(skipped := r.skipped + 1)
  }

  /** The lines after the header, read in order; once a line throws, the rest is not read. */
  function ImportLines(lines: seq<string>, nextClaimId: int, now: DateTime): ImportRun {
    if lines == [] then ImportRun([], 0, false)
    else ImportStep(ImportLines(lines[..|lines| - 1], nextClaimId, now), lines[|lines| - 1], nextClaimId, now)
  }

  predicate IsBlank(line: string) {
    IsNullOrWhiteSpace(Some(line))
  }

  /** Imported claims get consecutive ids from the counter and carry the import time. */
  lemma {:induction false} ImportedClaims(lines: seq<string>, nextClaimId: int, now: DateTime)
    ensures forall k :: 0 <= k < |ImportLines(lines, nextClaimId, now).added| ==>
      ImportLines(lines, nextClaimId, now).added[k].id == nextClaimId + k
    ensures forall k :: 0 <= k < |ImportLines(lines, nextClaimId, now).added| ==>
      ImportLines(lines, nextClaimId, now).added[k].submittedDate == now
    decreases |lines|
  {
    if lines != [] {
      var init := lines[..|lines| - 1];
      ImportedClaims(init, nextClaimId, now);
      var r, last := ImportLines(init, nextClaimId, now), lines[|lines| - 1];
      var s := ImportLines(lines, nextClaimId, now);
      assert s == ImportStep(r, last, nextClaimId, now);
      StepKeepsAdded(r, last, nextClaimId, now);
      StepAddsNext(r, last, nextClaimId, now);
      forall k | 0 <= k < |s.added| ensures s.added[k].id == nextClaimId + k && s.added[k].submittedDate == now {
        if k < |r.added| {
          assert s.added[k] == r.added[k];
          assert r.added[k].id == nextClaimId + k;
        } else {
          assert k == |r.added|;
        }
      }
    }
  }

  /** One step keeps the claims added so far and adds at most one. */
  lemma StepKeepsAdded(r: ImportRun, line: string, nextClaimId: int, now: DateTime)
    ensures |r.added| <= |ImportStep(r, line, nextClaimId, now).added| <= |r.added| + 1
    ensures forall k :: 0 <= k < |r.added| ==> ImportStep(r, line, nextClaimId, now).added[k] == r.added[k]
  {
  }

  /** A claim a step adds takes the next id and the import time. */
  lemma StepAddsNext(r: ImportRun, line: string, nextClaimId: int, now: DateTime)
    ensures var s := ImportStep(r, line, nextClaimId, now);
      |s.added| == |r.added| + 1 ==> s.added[|r.added|].id == nextClaimId + |r.added| && s.added[|r.added|].submittedDate == now
  {
  }

  /** Unless the import threw, every non-blank line was either imported or skipped. */
  lemma {:induction false} ImportAccountsForEveryLine(lines: seq<string>, nextClaimId: int, now: DateTime)
    ensures var run := ImportLines(lines, nextClaimId, now);
      !run.failed ==> |run.added| + run.skipped == Count(lines, l => !IsBlank(l))
    decreases |lines|
  {
    if lines != [] {
      var init := lines[..|lines| - 1];
      ImportAccountsForEveryLine(init, nextClaimId, now);
      assert init + [lines[|lines| - 1]] == lines;
      CountSnoc(init, lines[|lines| - 1], l => !IsBlank(l));
    }
  }

  /** Some line holds exactly eight values. */
  predicate SomeLineHasEightValues(lines: seq<string>) {
    exists k :: 0 <= k < |lines| && Occurrences(lines[k], ',') == 7
  }

  /** The import throws exactly when some line holds exactly eight values (a blank line holds no comma). */
  lemma {:induction false} ImportFailsOnEightValues(lines: seq<string>, nextClaimId: int, now: DateTime)
    ensures ImportLines(lines, nextClaimId, now).failed <==>
      exists k :: 0 <= k < |lines| && Occurrences(lines[k], ',') == 7
    decreases |lines|
  {
    if lines != [] {
      var init, last := lines[..|lines| - 1], lines[|lines| - 1];
      ImportFailsOnEightValues(init, nextClaimId, now);
      StepFails(ImportLines(init, nextClaimId, now), last, nextClaimId, now);
      EightValuesSnoc(lines);
    }
  }

  /** A step fails exactly when the run had failed or the line holds exactly eight values. */
  lemma StepFails(r: ImportRun, line: string, nextClaimId: int, now: DateTime)
    ensures ImportStep(r, line, nextClaimId, now).failed <==> r.failed || Occurrences(line, ',') == 7
  {
    FromCsvOutcome(line, now);
    if Occurrences(line, ',') > 0 {
      LineIsNotBlank(line);
    }
  }

  /** A list has a line of eight values exactly when its front does or its last line is one. */
  lemma EightValuesSnoc(lines: seq<string>)
    requires lines != []
    ensures SomeLineHasEightValues(lines) <==>
      SomeLineHasEightValues(lines[..|lines| - 1]) || Occurrences(lines[|lines| - 1], ',') == 7
  {
    var init := lines[..|lines| - 1];
    if SomeLineHasEightValues(init) {
      var k :| 0 <= k < |init| && Occurrences(init[k], ',') == 7;
      assert lines[k] == init[k];
    }
    if SomeLineHasEightValues(lines) {
      var k :| 0 <= k < |lines| && Occurrences(lines[k], ',') == 7;
      if k < |init| {
        assert init[k] == lines[k];
      }
    }
  }

  /** Once a line has thrown, reading further lines changes nothing. */
  lemma {:induction false} FailedIsFinal(lines: seq<string>, j: nat, nextClaimId: int, now: DateTime)
    requires j <= |lines|
    requires ImportLines(lines[..j], nextClaimId, now).failed
    ensures ImportLines(lines, nextClaimId, now) == ImportLines(lines[..j], nextClaimId, now)
    decreases |lines| - j
  {
    if j < |lines| {
      assert lines[..j + 1][..j] == lines[..j];
      FailedIsFinal(lines, j + 1, nextClaimId, now);
    } else {
      assert lines[..j] == lines;
    }
  }

  /** The lines the exports write: the header, then one line per claim in list order. */
  predicate IsCsvExport(lines: seq<string>, claims: seq<MonthlyClaim>) {
    lines == [GetCsvHeaders()] + Select(claims, ToCsv)
  }

  /**
   * Importing an export of stored claims adds nothing: every line carries its claim's
   * non-zero id, so every line is skipped, and none throws. This needs every record to be
   * one line when read back, so no written line may hold a line break.
   */
  lemma {:induction false} ReimportSkipsEverything(lines: seq<string>, claims: seq<MonthlyClaim>, nextClaimId: int, now: DateTime)
    requires IsCsvExport(lines, claims)
    requires forall k :: 0 <= k < |claims| ==> '\n' !in ToCsv(claims[k]) && '\r' !in ToCsv(claims[k])
    requires forall k :: 0 <= k < |claims| ==> 1 <= claims[k].id <= Int32Max
    ensures ImportLines(lines[1..], nextClaimId, now) == ImportRun([], |claims|, false)
  {
    assert lines[1..] == Select(claims, ToCsv);
    ReimportBody(claims, nextClaimId, now);
  }

  lemma {:induction false} ReimportBody(claims: seq<MonthlyClaim>, nextClaimId: int, now: DateTime)
    requires forall k :: 0 <= k < |claims| ==> 1 <= claims[k].id <= Int32Max
    ensures ImportLines(Select(claims, ToCsv), nextClaimId, now) == ImportRun([], |claims|, false)
    decreases |claims|
  {
    if claims != [] {
      var n := |claims|;
      var init := claims[..n - 1];
      ReimportBody(init, nextClaimId, now);
      var body := Select(claims, ToCsv);
      assert body[..n - 1] == Select(init, ToCsv);
      SelectAt(claims, ToCsv, n - 1);
      ToCsvCommas(claims[n - 1]);
      StoredLineSkipped(claims[n - 1], ImportLines(Select(init, ToCsv), nextClaimId, now), nextClaimId, now);
    }
  }

  /** The line of a stored claim is never blank, never throws, and is skipped for its non-zero id. */
  lemma StoredLineSkipped(c: MonthlyClaim, r: ImportRun, nextClaimId: int, now: DateTime)
    requires 1 <= c.id <= Int32Max && !r.failed
    ensures ImportStep(r, ToCsv(c), nextClaimId, now) == r.(skipped := r.skipped + 1)
  {
    var line := ToCsv(c);
    ToCsvCommas(c);
    LineIsNotBlank(line);
    FromCsvToCsvId(c, now);
    StepDecodes(r, line, FromCsv(line, now), nextClaimId, now);
    DecodedStep(r, FromCsv(line, now), nextClaimId, now);
  }

  /** A line holding a comma is not blank. */
  lemma LineIsNotBlank(line: string)
    requires Occurrences(line, ',') > 0
    ensures !IsBlank(line)
  {
    var k :| 0 <= k < |line| && line[k] == ',';
    assert !IsWhiteSpace(line[k]);
  }

  /** A claim appended with the counter's id keeps the ids ascending once the counter moves on. */
  lemma AppendKeepsAscending(claims: seq<MonthlyClaim>, nextClaimId: int, c: MonthlyClaim)
    requires IdsAscending(claims, nextClaimId) && c.id == nextClaimId
    ensures IdsAscending(claims + [c], nextClaimId + 1)
  {
  }

  /** Removing the claim at `k` keeps the ids ascending, and since ids are unique its id is gone. */
  lemma RemoveKeepsAscending(claims: seq<MonthlyClaim>, nextClaimId: int, k: nat)
    requires IdsAscending(claims, nextClaimId) && k < |claims|
    ensures var after := claims[..k] + claims[k + 1..];
      && IdsAscending(after, nextClaimId)
      && forall j :: 0 <= j < |after| ==> after[j].id != claims[k].id
  {
    var after := claims[..k] + claims[k + 1..];
    assert forall j :: 0 <= j < |after| ==> after[j] == claims[if j < k then j else j + 1];
  }

  /** Reading one more line is one more step. */
  lemma ImportLinesSnoc(lines: seq<string>, i: nat, nextClaimId: int, now: DateTime)
    requires i < |lines|
    ensures ImportLines(lines[..i + 1], nextClaimId, now) == ImportStep(ImportLines(lines[..i], nextClaimId, now), lines[i], nextClaimId, now)
  {
    assert lines[..i + 1][..i] == lines[..i];
  }

  /** A step on a blank line changes nothing; on any other line it is the step on what the line decodes to. */
  lemma StepDecodes(r: ImportRun, line: string, decoded: Decoded, nextClaimId: int, now: DateTime)
    requires !r.failed && decoded == FromCsv(line, now)
    ensures IsBlank(line) ==> ImportStep(r, line, nextClaimId, now) == r
    ensures !IsBlank(line) ==> ImportStep(r, line, nextClaimId, now) == ImportDecoded(r, decoded, nextClaimId, now)
  {
  }

  /** The three things a decoded line can do to the run. */
  lemma DecodedStep(r: ImportRun, decoded: Decoded, nextClaimId: int, now: DateTime)
    ensures decoded.IndexOutOfRange? ==> ImportDecoded(r, decoded, nextClaimId, now) == r.(failed := true)
    ensures decoded.Record? && decoded.claim.id == 0 ==>
      ImportDecoded(r, decoded, nextClaimId, now) == r.(added := r.added + [Imported(decoded.claim, nextClaimId + |r.added|, now)])
    ensures !decoded.IndexOutOfRange? && !(decoded.Record? && decoded.claim.id == 0) ==>
      ImportDecoded(r, decoded, nextClaimId, now) == r.(skipped := r.skipped + 1)
  {
  }

  lemma AppendAssociates(a: seq<MonthlyClaim>, b: seq<MonthlyClaim>, c: MonthlyClaim)
    ensures a + (b + [c]) == (a + b) + [c]
  {
  }

  /** The result of `ImportClaims`. */
  datatype ImportOutcome = NoFile | NotCsv | Completed(imported: nat, skipped: nat) | Failed

  /** The uploaded file: its name and the lines a `StreamReader` yields from its content. */
  datatype Upload = Upload(fileName: string, lines: seq<string>)

  /** The result of the POST `Edit` action. */
  datatype EditOutcome = InvalidClaimId | ValidationFailed | NotFound | Updated

  class ClaimStore {
    /** `_claims` */
    var claims: seq<MonthlyClaim>
    /** `_nextClaimId` */
    var nextClaimId: int

    predicate Valid()
      reads this
    {
      IdsAscending(claims, nextClaimId)
    }

    constructor ()
      ensures claims == [] && nextClaimId == 1
      ensures Valid()
    {
      claims := [];
      nextClaimId := 1;
    }

    /** `Details(id)` and `Edit(id)`: the first claim with that id, if any. */
    function Find(id: int): (r: Option<MonthlyClaim>)
      reads this
      ensures r.Some? <==> exists k :: 0 <= k < |claims| && claims[k].id == id
      ensures r.Some? ==> r.value in claims && r.value.id == id
    {
      match FirstWithId(claims, id)
      case None => None
      case Some(k) => Some(claims[k])
    }

    /** POST `Create`: a pending claim with the next id, submitted now by the signed-in user. */
    method Create(model: MonthlyClaim, user: Identity, now: DateTime) returns (created: MonthlyClaim)
      requires Valid()
      modifies this
      ensures Valid()
      ensures created == NewClaim(model, old(nextClaimId), DisplayName(user), now)
      ensures claims == old(claims) + [created]
      ensures nextClaimId == old(nextClaimId) + 1
    {
      created := NewClaim(model, nextClaimId, DisplayName(user), now);
      ghost var before := claims;
      nextClaimId := nextClaimId + 1;
      claims := claims + [created];
      assert forall i :: 0 <= i < |before| ==> claims[i] == before[i];
    }

    /** POST `Edit`: copy the editable fields onto the stored claim with that id. */
    method Edit(id: int, model: MonthlyClaim, modelStateValid: bool) returns (outcome: EditOutcome)
      requires Valid()
      modifies this
      ensures Valid()
      ensures nextClaimId == old(nextClaimId)
      ensures outcome ==
        if id != model.id then InvalidClaimId
        else if !modelStateValid then ValidationFailed
        else if FirstWithId(old(claims), id).None? then NotFound
        else Updated
      ensures outcome.Updated? ==>
        var k := FirstWithId(old(claims), id).value;
        claims == old(claims)[k := Edited(old(claims)[k], model)]
      ensures !outcome.Updated? ==> claims == old(claims)
    {
      if id != model.id {
        return InvalidClaimId;
      }
      if !modelStateValid {
        return ValidationFailed;
      }
      var found := FirstWithId(claims, id);
      if found.None? {
        return NotFound;
      }
      var k := found.value;
      claims := claims[k := Edited(claims[k], model)];
      outcome := Updated;
    }

    /** `Delete(id)`: remove the claim with that id; afterwards no claim has it. */
    method Delete(id: int) returns (deleted: bool)
      requires Valid()
      modifies this
      ensures Valid()
      ensures nextClaimId == old(nextClaimId)
      ensures deleted <==> exists k :: 0 <= k < |old(claims)| && old(claims)[k].id == id
      ensures deleted ==>
        var k := FirstWithId(old(claims), id).value;
        claims == old(claims)[..k] + old(claims)[k + 1..]
      ensures !deleted ==> claims == old(claims)
      ensures forall k :: 0 <= k < |claims| ==> claims[k].id != id
    {
      var found := FirstWithId(claims, id);
      if found.None? {
        return false;
      }
      var k := found.value;
      RemoveKeepsAscending(claims, nextClaimId, k);
      claims := claims[..k] + claims[k + 1..];
      deleted := true;
    }

    /** `ExportClaims(format)`: every claim as CSV; any other format is reported and CSV is used. */
    method ExportClaims(format: string) returns (lines: seq<string>, unsupported: bool)
      ensures IsCsvExport(lines, claims)
      ensures unsupported <==> ToLower(format) != "csv"
    {
      unsupported := ToLower(format) != "csv";
      lines := WriteLines(GetCsvHeaders(), claims, ToCsv);
    }

    /** `ExportMyClaims(format)`: the claims of the signed-in user, by name or e-mail. */
    method ExportMyClaims(user: Identity, format: string) returns (lines: seq<string>, unsupported: bool)
      ensures IsCsvExport(lines, Where(claims, c => OwnsClaim(user, c)))
      ensures unsupported <==> ToLower(format) != "csv"
    {
      unsupported := ToLower(format) != "csv";
      var mine := Where(claims, c => OwnsClaim(user, c));
      lines := WriteLines(GetCsvHeaders(), mine, ToCsv);
    }

    /**
     * POST `ImportClaims`: no file or an empty one, and a name without the ".csv" extension, are
     * refused; otherwise the lines after the header are imported.
     */
    method ImportClaims(file: Option<Upload>, now: DateTime) returns (outcome: ImportOutcome)
      requires Valid()
      modifies this
      ensures Valid()
      ensures file.None? || file.value.lines == [] ==>
        outcome == NoFile && claims == old(claims) && nextClaimId == old(nextClaimId)
      ensures file.Some? && file.value.lines != [] && !HasCsvExtension(file.value.fileName) ==>
        outcome == NotCsv && claims == old(claims) && nextClaimId == old(nextClaimId)
      ensures file.Some? && file.value.lines != [] && HasCsvExtension(file.value.fileName) ==>
        var run := ImportLines(file.value.lines[1..], old(nextClaimId), now);
        && claims == old(claims) + run.added
        && nextClaimId == old(nextClaimId) + |run.added|
        && outcome == if run.failed then Failed else Completed(|run.added|, run.skipped)
    {
      if file.None? || file.value.lines == [] {
        return NoFile;
      }
      if !HasCsvExtension(file.value.fileName) {
        return NotCsv;
      }
      var failed, imported, skipped := ImportRows(file.value.lines[1..], now);
      outcome := if failed then Failed else Completed(imported, skipped);
    }

    /** `_claims.Add(claim)` for a claim that took the counter's id, which then advances. */
    method Append(claim: MonthlyClaim)
      requires Valid() && claim.id == nextClaimId
      modifies this
      ensures Valid()
      ensures claims == old(claims) + [claim] && nextClaimId == old(nextClaimId) + 1
    {
      AppendKeepsAscending(claims, nextClaimId, claim);
      nextClaimId := nextClaimId + 1;
      claims := claims + [claim];
    }

    /**
     * The loop of `ImportClaims` over the lines after the header: every line whose id reads 0
     * is added as a new claim and the rest are counted as skipped. A line of exactly eight
     * values throws; the claims added before it stay.
     */
    method ImportRows(lines: seq<string>, now: DateTime) returns (failed: bool, imported: nat, skipped: nat)
      requires Valid()
      modifies this
      ensures Valid()
      ensures claims == old(claims) + ImportLines(lines, old(nextClaimId), now).added
      ensures nextClaimId == old(nextClaimId) + |ImportLines(lines, old(nextClaimId), now).added|
      ensures failed == ImportLines(lines, old(nextClaimId), now).failed
      ensures imported == |ImportLines(lines, old(nextClaimId), now).added|
      ensures skipped == ImportLines(lines, old(nextClaimId), now).skipped
    {
      ghost var claims0, next0 := claims, nextClaimId;
      ghost var run := ImportRun([], 0, false);
      imported, skipped := 0, 0;
      var i := 0;
      while i < |lines|
        invariant 0 <= i <= |lines|
        invariant run == ImportLines(lines[..i], next0, now)
        invariant !run.failed
        invariant claims == claims0 + run.added
        invariant nextClaimId == next0 + |run.added|
        invariant imported == |run.added| && skipped == run.skipped
        invariant Valid()
      {
        var line := lines[i];
        ImportLinesSnoc(lines, i, next0, now);
        if IsNullOrWhiteSpace(Some(line)) {
          StepDecodes(run, line, FromCsv(line, now), next0, now);
          i := i + 1;
          continue;
        }
        var decoded := FromCsv(line, now);
        StepDecodes(run, line, decoded, next0, now);
        DecodedStep(run, decoded, next0, now);
        if decoded.IndexOutOfRange? {
          FailedIsFinal(lines, i + 1, next0, now);
          return true, imported, skipped;
        }
        if decoded.Record? && decoded.claim.id == 0 {
          var claim := Imported(decoded.claim, nextClaimId, now);
          assert claim == Imported(decoded.claim, next0 + |run.added|, now);
          AppendAssociates(claims0, run.added, claim);
          Append(claim);
          imported := imported + 1;
          run := run.(added := run.added + [claim]);
        } else {
          skipped := skipped + 1;
          run := run.(skipped := run.skipped + 1);
        }
        i := i + 1;
      }
      assert lines[..i] == lines;
      failed := false;
    }
  }
}

/**
 * `form_write` and `write_forms`: one filled document per data row, named
 * after the template and the row's identity value, with the intermediate
 * file `data.fdf` written before and removed after the form-fill call.
 */
module Forms {
  import opened Wrappers
  import opened Strings
  import opened Dicts
  import opened Catalog
  import opened Template

  const NameSeparator := " - "
  const PdfExtension := ".pdf"

  /**
   * The document base name of `form_write` (line 161): the template path
   * up to its first '.', or the whole path when it has none.
   */
  function DocumentName(template: string): (r: string)
    ensures r <= template
    ensures '.' !in r
    ensures |r| < |template| ==> template[|r|] == '.'
  {
    var r := Split(template, ".")[0];
    SplitHead(template, ".");
    NotContainsChar(r, '.');
    assert |r| < |template| ==> template[|r|..|r| + 1] == ".";
    r
  }

  /** The document name of line 173: the base name, " - ", the identity and ".pdf". */
  function PdfName(template: string, id: string): string
  {
    DocumentName(template) + NameSeparator + id + PdfExtension
  }

  /**
   * Rows of one template are written to the same document exactly when
   * their identity values are equal: a repeated identity overwrites.
   */
  lemma PdfNameInjective(template: string, a: string, b: string)
    ensures PdfName(template, a) == PdfName(template, b) <==> a == b
  {
    if PdfName(template, a) == PdfName(template, b) {
      var p := DocumentName(template) + NameSeparator;
      assert PdfName(template, a) == p + a + PdfExtension;
      assert PdfName(template, b) == p + b + PdfExtension;
      assert |a| == |b|;
      assert a == PdfName(template, a)[|p|..|p| + |a|];
      assert b == PdfName(template, b)[|p|..|p| + |b|];
    }
  }

  /** The decimal digits of `n`, as `str(n)` gives them. */
  function Decimal(n: nat): string
    decreases n
  {
    var digit := ['0' + (n % 10) as char];
    if n < 10 then digit else Decimal(n / 10) + digit
  }

  /** `str(c)`, inside the document name. */
  function Show(c: Cell): string
  {
    match c
    case Text(s) => s
    case Index(n) => Decimal(n)
  }

  /** Python's truth test on a cell: the empty string and 0 are false. */
  predicate Falsy(c: Cell)
  {
    c == Text("") || c == Index(0)
  }

  /** What `form_write` decides for a row before any file is touched. */
  datatype Plan = Skip | Fill(fdf: Row, pdfName: string)

  /** The exceptions that leave `form_write`. */
  datatype RowError =
    | MissingIdentityColumn // KeyError on row[formIDColumn]
    | CleanupNameError      // NameError: `Pass` evaluated when data.fdf is already gone

  /**
   * The naming and skip logic of `form_write`: a row without the identity
   * column raises KeyError; an empty identity value skips the row; otherwise
   * every `(key, value)` pair of the row, in order, goes to the FDF and the
   * document is named after the template's base name and the identity.
   */
  function PlanRow(row: Row, template: string): (r: Result<Plan, RowError>)
    ensures r.Failure? <==> IdentityColumn !in KeySet(row)
    ensures r.Failure? ==> r.error == MissingIdentityColumn
    ensures r == Success(Skip) <==> IdentityColumn in KeySet(row) && Falsy(Lookup(row, IdentityColumn).value)
    ensures r.Success? && r.value.Fill? ==>
      && r.value.fdf == row
      && r.value.pdfName == PdfName(template, Show(Lookup(row, IdentityColumn).value))
  {
    match Lookup(row, IdentityColumn)
    case None => Failure(MissingIdentityColumn)
    case Some(id) =>
      if Falsy(id) then Success(Skip)
      else Success(Fill(row, PdfName(template, Show(id))))
  }

  /** How `form_write` treats a `data.fdf` that is already gone at cleanup. */
  datatype CleanupRule =
    | AsWritten // the handler at line 180 names the undefined `Pass`: NameError
    | Tolerant  // the evident intent, `pass`: nothing to remove, nothing raised

  /** What a row leaves behind when `form_write` returns normally. */
  datatype RowOutcome = Skipped | Written(pdfName: string, fdf: Row)

  /**
   * One call of `form_write` on the file system: `present` says whether
   * `data.fdf` exists beforehand and `keptByFill` whether it still exists
   * once the form-fill utility has returned. The result is the outcome or
   * the exception, and whether `data.fdf` exists afterwards.
   */
  function RowStep(rule: CleanupRule, row: Row, template: string, present: bool, keptByFill: bool)
    : (r: (Result<RowOutcome, RowError>, bool))
    ensures PlanRow(row, template).Failure? ==> r == (Failure(MissingIdentityColumn), present)
    ensures PlanRow(row, template) == Success(Skip) ==> r == (Success(Skipped), present)
    ensures PlanRow(row, template).Success? && PlanRow(row, template).value.Fill? ==> !r.1
    ensures rule == Tolerant || keptByFill ==> r.0.Success? == PlanRow(row, template).Success?
    ensures (rule == Tolerant || keptByFill) && r.0.Success? ==> r.0.value == OutcomeOf(row, template)
    ensures rule == AsWritten && PlanRow(row, template).Success? && PlanRow(row, template).value.Fill? ==>
      (r.0 == Failure(CleanupNameError) <==> !keptByFill)
  {
    match PlanRow(row, template)
    case Failure(e) => (Failure(e), present)
    case Success(Skip) => (Success(Skipped), present)
    case Success(Fill(fdf, pdfName)) =>
      if keptByFill || rule == Tolerant then (Success(Written(pdfName, fdf)), false)
      else (Failure(CleanupNameError), false)
  }

  /**
   * `form_write(row, template)` with the intended cleanup: the outcome and
   * the new state of `data.fdf` are those of RowStep.
   */
  method FormWrite(row: Row, template: string, present: bool, keptByFill: bool)
    returns (result: Result<RowOutcome, RowError>, dataFdf: bool)
    ensures (result, dataFdf) == RowStep(Tolerant, row, template, present, keptByFill)
  {
    dataFdf := present;
    match PlanRow(row, template)
    case Failure(e) =>
      result := Failure(e);
    case Success(Skip) =>
      result := Success(Skipped);
    case Success(Fill(fdf, pdfName)) =>
      dataFdf := true;                      // data.fdf written with the FDF of `fdf`
      dataFdf := dataFdf && keptByFill;     // pdftk fill_form runs; its exit status is ignored
      if dataFdf {
        dataFdf := false;       // the cleanup removes data.fdf
      }
      result := Success(Written(pdfName, fdf));
  }

  /** What a batch reports: the outcomes of the rows done, the exception that stopped it, and `data.fdf`. */
  datatype BatchReport = BatchReport(outcomes: seq<RowOutcome>, failure: Option<RowError>, dataFdf: bool)

  /**
   * The loop of `write_forms` (lines 155-156) over the first `n` rows:
   * an exception ends the loop; `keptByFill(i)` says whether `data.fdf`
   * survives the form-fill call of row `i`.
   */
  function RunBatch(rule: CleanupRule, rows: seq<Row>, template: string, keptByFill: nat -> bool,
                    present: bool, n: nat): BatchReport
    requires n <= |rows|
  {
    if n == 0 then BatchReport([], None, present)
    else
      var prev := RunBatch(rule, rows, template, keptByFill, present, n - 1);
      if prev.failure.Some? then prev
      else
        var (res, dataFdf) := RowStep(rule, rows[n - 1], template, prev.dataFdf, keptByFill(n - 1));
        match res
        case Failure(e) => BatchReport(prev.outcomes, Some(e), dataFdf)
        case Success(o) => BatchReport(prev.outcomes + [o], None, dataFdf)
  }

  /** The outcome a row has by itself, independent of the other rows and of the file system. */
  function OutcomeOf(row: Row, template: string): RowOutcome
    requires PlanRow(row, template).Success?
  {
    match PlanRow(row, template).value
    case Skip => Skipped
    case Fill(fdf, pdfName) => Written(pdfName, fdf)
  }

  /** Once a batch has stopped, later rows change nothing. */
  lemma {:induction false} StoppedBatchStays(rule: CleanupRule, rows: seq<Row>, template: string,
                                             keptByFill: nat -> bool, present: bool, m: nat, n: nat)
    requires m <= n <= |rows|
    requires RunBatch(rule, rows, template, keptByFill, present, m).failure.Some?
    ensures RunBatch(rule, rows, template, keptByFill, present, n)
         == RunBatch(rule, rows, template, keptByFill, present, m)
  {
    if m < n {
      StoppedBatchStays(rule, rows, template, keptByFill, present, m, n - 1);
    }
  }

  /**
   * With the intended cleanup, rows are independent: each row done has the
   * outcome it has by itself, in row order; the only exception is a
   * missing identity column, and it stops the batch at the first row that
   * lacks it; otherwise every row is done. Empty identities are skips, not
   * failures.
   */
  lemma {:induction false} BatchIsolatesRows(rows: seq<Row>, template: string, keptByFill: nat -> bool,
                                             present: bool, n: nat)
    requires n <= |rows|
    ensures var rep := RunBatch(Tolerant, rows, template, keptByFill, present, n);
      && (rep.failure.None? <==> forall i :: 0 <= i < n ==> IdentityColumn in KeySet(rows[i]))
      && (rep.failure.None? ==> |rep.outcomes| == n)
      && (rep.failure.Some? ==>
            && rep.failure.value == MissingIdentityColumn
            && |rep.outcomes| < n
            && IdentityColumn !in KeySet(rows[|rep.outcomes|]))
      && forall i :: 0 <= i < |rep.outcomes| ==>
           IdentityColumn in KeySet(rows[i]) && rep.outcomes[i] == OutcomeOf(rows[i], template)
  {
    if n > 0 {
      BatchIsolatesRows(rows, template, keptByFill, present, n - 1);
      var prev := RunBatch(Tolerant, rows, template, keptByFill, present, n - 1);
      var rep := RunBatch(Tolerant, rows, template, keptByFill, present, n);
      if prev.failure.None? {
        assert |prev.outcomes| == n - 1;
        var step := RowStep(Tolerant, rows[n - 1], template, prev.dataFdf, keptByFill(n - 1));
        if step.0.Success? {
          assert IdentityColumn in KeySet(rows[n - 1]);
          assert rep.outcomes == prev.outcomes + [OutcomeOf(rows[n - 1], template)];
          assert forall i :: 0 <= i < n - 1 ==> rep.outcomes[i] == prev.outcomes[i];
        } else {
          assert IdentityColumn !in KeySet(rows[n - 1]);
          assert rep == BatchReport(prev.outcomes, Some(MissingIdentityColumn), step.1);
        }
      } else {
        assert rep == prev;
      }
    }
  }

  /**
   * With the intended cleanup, `data.fdf` exists after the batch only if it
   * existed before and no document was written: every filling leaves it
   * removed, whether or not the form-fill call had already removed it.
   */
  lemma {:induction false} BatchRemovesIntermediate(rows: seq<Row>, template: string, keptByFill: nat -> bool,
                                                    present: bool, n: nat)
    requires n <= |rows|
    ensures var rep := RunBatch(Tolerant, rows, template, keptByFill, present, n);
      rep.dataFdf <==> present && forall i :: 0 <= i < |rep.outcomes| ==> rep.outcomes[i].Skipped?
  {
    if n > 0 {
      BatchRemovesIntermediate(rows, template, keptByFill, present, n - 1);
      var prev := RunBatch(Tolerant, rows, template, keptByFill, present, n - 1);
      if prev.failure.None? {
        var rep := RunBatch(Tolerant, rows, template, keptByFill, present, n);
        var step := RowStep(Tolerant, rows[n - 1], template, prev.dataFdf, keptByFill(n - 1));
        if step.0.Success? {
          assert rep.outcomes == prev.outcomes + [step.0.value];
          assert rep.outcomes[|prev.outcomes|] == step.0.value;
          assert step.0.value.Skipped? ==> step.1 == prev.dataFdf;
          assert step.0.value.Written? ==> PlanRow(rows[n - 1], template).value.Fill? && !step.1;
          assert forall i :: 0 <= i < |prev.outcomes| ==> rep.outcomes[i] == prev.outcomes[i];
        }
      }
    }
  }

  /**
   * `write_forms`: form_write on each row in order, until one raises.
   * Returns the outcomes of the rows done, the exception, if any, and
   * whether `data.fdf` exists at the end.
   */
  method WriteForms(rows: seq<Row>, template: string, keptByFill: nat -> bool, present: bool)
    returns (outcomes: seq<RowOutcome>, failure: Option<RowError>, dataFdf: bool)
    ensures BatchReport(outcomes, failure, dataFdf) == RunBatch(Tolerant, rows, template, keptByFill, present, |rows|)
  {
    outcomes, failure, dataFdf := [], None, present;
    var i := 0;
    while i < |rows| && failure.None?
      invariant 0 <= i <= |rows|
      invariant BatchReport(outcomes, failure, dataFdf) == RunBatch(Tolerant, rows, template, keptByFill, present, i)
      decreases |rows| - i
    {
      ghost var step := RowStep(Tolerant, rows[i], template, dataFdf, keptByFill(i));
      var result;
      result, dataFdf := FormWrite(rows[i], template, dataFdf, keptByFill(i));
      assert (result, dataFdf) == step;
      match result {
        case Failure(e) => failure := Some(e);
        case Success(o) => outcomes := outcomes + [o];
      }
      i := i + 1;
    }
    if i < |rows| {
      StoppedBatchStays(Tolerant, rows, template, keptByFill, present, i, |rows|);
    }
  }

  /**
   * Three rows whose identity values are "1", "" and "3": the first and
   * the third are written, the second is skipped, and nothing stops the
   * batch.
   */
  lemma ThreeRowBatch(template: string, keptByFill: nat -> bool, present: bool)
    ensures var r1 := [(IdentityColumn, Text("1"))];
      var r2 := [(IdentityColumn, Text(""))];
      var r3 := [(IdentityColumn, Text("3"))];
      RunBatch(Tolerant, [r1, r2, r3], template, keptByFill, present, 3)
        == BatchReport([Written(PdfName(template, "1"), r1), Skipped, Written(PdfName(template, "3"), r3)], None, false)
  {
    var r1 := [(IdentityColumn, Text("1"))];
    var r2 := [(IdentityColumn, Text(""))];
    var r3 := [(IdentityColumn, Text("3"))];
    var rows := [r1, r2, r3];
    assert RunBatch(Tolerant, rows, template, keptByFill, present, 1).outcomes == [Written(PdfName(template, "1"), r1)];
    assert RunBatch(Tolerant, rows, template, keptByFill, present, 2).outcomes
        == [Written(PdfName(template, "1"), r1), Skipped];
  }

  /**
   * As written, a `data.fdf` that is gone when `form_write` cleans up stops
   * the batch: with two rows to write and a form-fill utility that removes
   * the file, the first call raises NameError and the second row is never
   * written; with the intended cleanup both are.
   */
  lemma CleanupAsWrittenAbortsBatch(template: string)
    ensures var rows := [[(IdentityColumn, Text("1"))], [(IdentityColumn, Text("3"))]];
      var gone := (i: nat) => false;
      && RunBatch(AsWritten, rows, template, gone, false, 2) == BatchReport([], Some(CleanupNameError), false)
      && |RunBatch(Tolerant, rows, template, gone, false, 2).outcomes| == 2
  {
    var rows := [[(IdentityColumn, Text("1"))], [(IdentityColumn, Text("3"))]];
    var gone := (i: nat) => false;
    assert RunBatch(AsWritten, rows, template, gone, false, 1) == BatchReport([], Some(CleanupNameError), false);
    assert |RunBatch(Tolerant, rows, template, gone, false, 1).outcomes| == 1;
  }

  /** As written and as intended agree whenever the form-fill call leaves `data.fdf` in place. */
  lemma {:induction false} CleanupRulesAgree(rows: seq<Row>, template: string, keptByFill: nat -> bool,
                                             present: bool, n: nat)
    requires n <= |rows|
    requires forall i :: 0 <= i < n ==> keptByFill(i)
    ensures RunBatch(AsWritten, rows, template, keptByFill, present, n)
         == RunBatch(Tolerant, rows, template, keptByFill, present, n)
  {
    if n > 0 {
      CleanupRulesAgree(rows, template, keptByFill, present, n - 1);
    }
  }

  /**
   * `get_fields --sample`: the sample row always names a document, the
   * template's base name followed by " - Sample.pdf", and it carries the
   * whole sample row as the FDF.
   */
  lemma SampleDocument(dump: string, choose: Chooser, template: string)
    requires GetFields(dump, choose).Success?
    ensures var sample := GetFields(dump, choose).value.sample;
      PlanRow(sample, template) == Success(Fill(sample, PdfName(template, SampleIdentity)))
  {
  }
}

/**
 * The spreadsheet template `get_fields` derives from the catalog: the
 * column list, and one sample row whose cells are a declared state option
 * where the field has one, the field's position otherwise, and "Sample" in
 * the identity column.
 */
module Template {
  import opened Wrappers
  import opened Dicts
  import opened FieldRecords
  import opened Catalog

  const OptionKey := "FieldStateOption"
  const SampleIdentity := "Sample"

  /** A cell of the sample row: a string, or the integer position `enumerate` gave. */
  datatype Cell = Text(s: string) | Index(n: nat)

  /** A row of the spreadsheet as the dict Python builds or reads: column to cell. */
  type Row = Dict<Cell>

  /**
   * The source of `random.choice`: given the field's position and the
   * number of options, a draw that the model reduces below that number.
   */
  type Chooser = (nat, nat) -> nat

  /** The exceptions `get_fields` can raise while building the template. */
  datatype FieldsError =
    | MissingFieldName(position: nat)    // KeyError: the record has no FieldName
    | UnhashableFieldName(position: nat) // TypeError: a repeated FieldName is a list
    | NoOptionToChoose(position: nat)    // IndexError: random.choice of an empty string

  /**
   * A record's FieldName used as a key of the sample row (form-writer.py
   * line 129), at catalog position `pos`.
   */
  function FieldNameOf(field: FieldRecord, pos: nat): (r: Result<string, FieldsError>)
    ensures r.Success? <==> FieldNameKey in field && field[FieldNameKey].Scalar?
    ensures r.Success? ==> r.value == field[FieldNameKey].s
    ensures FieldNameKey !in field ==> r == Failure(MissingFieldName(pos))
    ensures FieldNameKey in field && field[FieldNameKey].Seq? ==> r == Failure(UnhashableFieldName(pos))
  {
    if FieldNameKey !in field then Failure(MissingFieldName(pos))
    else match field[FieldNameKey]
      case Scalar(name) => Success(name)
      case Seq(_) => Failure(UnhashableFieldName(pos))
  }

  /**
   * `sampleValue(field, idx)`: a field without state options gets its
   * position; one with options gets a member of them. A single option is
   * stored as a plain string, and `random.choice` then picks one of its
   * characters; an empty string has none to pick.
   */
  function SampleValue(field: FieldRecord, idx: nat, choose: Chooser): (r: Result<Cell, FieldsError>)
    ensures OptionKey !in field ==> r == Success(Index(idx))
    ensures OptionKey in field && field[OptionKey].Seq? ==>
      if field[OptionKey].items == [] then r == Failure(NoOptionToChoose(idx))
      else r.Success? && r.value.Text? && r.value.s in field[OptionKey].items
    ensures OptionKey in field && field[OptionKey].Scalar? ==>
      if field[OptionKey].s == "" then r == Failure(NoOptionToChoose(idx))
      else r.Success? && r.value.Text? && |r.value.s| == 1 && r.value.s[0] in field[OptionKey].s
  {
    if OptionKey in field then
      match field[OptionKey]
      case Seq(items) =>
        if items == [] then Failure(NoOptionToChoose(idx))
        else Success(Text(items[choose(idx, |items|) % |items|]))
      case Scalar(s) =>
        if s == "" then Failure(NoOptionToChoose(idx))
        else Success(Text([s[choose(idx, |s|) % |s|]]))
    else
      Success(Index(idx))
  }

  /** Field `i` of the catalog yields a column name and a sample cell. */
  predicate FieldOk(catalog: seq<FieldRecord>, i: nat, choose: Chooser)
    requires i < |catalog|
  {
    FieldNameOf(catalog[i], i).Success? && SampleValue(catalog[i], i, choose).Success?
  }

  /** The column name of field `i`, which must be a plain string. */
  function NameAt(catalog: seq<FieldRecord>, i: nat): string
    requires i < |catalog|
    requires FieldNameOf(catalog[i], i).Success?
  {
    catalog[i][FieldNameKey].s
  }

  /**
   * The exception field `i` raises. The comprehension evaluates the key
   * first (a missing FieldName is a KeyError), then the value (the sample
   * draw), and only then stores the pair, which is where a list-valued
   * FieldName fails to hash.
   */
  function FieldError(catalog: seq<FieldRecord>, i: nat, choose: Chooser): FieldsError
    requires i < |catalog| && !FieldOk(catalog, i, choose)
  {
    if FieldNameKey !in catalog[i] then MissingFieldName(i)
    else if SampleValue(catalog[i], i, choose).Failure? then SampleValue(catalog[i], i, choose).error
    else FieldNameOf(catalog[i], i).error
  }

  /** No field after `i` among the first `n` has the same column name. */
  predicate LastWithName(catalog: seq<FieldRecord>, choose: Chooser, n: nat, i: nat)
    requires i < n <= |catalog| && FieldOk(catalog, i, choose)
  {
    forall j :: i < j < n && FieldOk(catalog, j, choose) ==> NameAt(catalog, j) != NameAt(catalog, i)
  }

  /**
   * The dict comprehension of `get_fields` over the first `n` fields of the
   * catalog, keyed by each field's name and valued by its sample value. It
   * fails with the error of the first field that has no usable name or no
   * sample value, in the order FieldError gives.
   * On success every field contributed; the keys are exactly the names,
   * none repeated; a name used by several fields holds the cell of the
   * last of them.
   */
  function SampleEntries(catalog: seq<FieldRecord>, choose: Chooser, n: nat): (r: Result<Row, FieldsError>)
    requires n <= |catalog|
    ensures r.Success? <==> forall i :: 0 <= i < n ==> FieldOk(catalog, i, choose)
    ensures r.Failure? ==>
      exists i :: 0 <= i < n && !FieldOk(catalog, i, choose)
        && (forall j :: 0 <= j < i ==> FieldOk(catalog, j, choose))
        && r.error == FieldError(catalog, i, choose)
  {
    if n == 0 then Success([])
    else
      match SampleEntries(catalog, choose, n - 1)
      case Failure(e) => Failure(e)
      case Success(row) =>
        var i := n - 1;
        if FieldNameKey !in catalog[i] then
          assert !FieldOk(catalog, i, choose);
          Failure(MissingFieldName(i))
        else
          match SampleValue(catalog[i], i, choose)
          case Failure(e) =>
            assert !FieldOk(catalog, i, choose);
            Failure(e)
          case Success(v) =>
            match FieldNameOf(catalog[i], i)
            case Failure(e) =>
              assert !FieldOk(catalog, i, choose);
              Failure(e)
            case Success(name) =>
              Success(Assign(row, name, v))
  }

  /**
   * What the comprehension holds when it succeeds: the keys are exactly the
   * fields' names, none repeated, and a name used by several fields holds
   * the cell of the last of them.
   */
  lemma {:induction false} SampleEntriesContents(catalog: seq<FieldRecord>, choose: Chooser, n: nat)
    requires n <= |catalog|
    requires SampleEntries(catalog, choose, n).Success?
    ensures var row := SampleEntries(catalog, choose, n).value;
      && Distinct(row)
      && KeySet(row) == (set i | 0 <= i < n && FieldOk(catalog, i, choose) :: NameAt(catalog, i))
      && forall i :: 0 <= i < n && FieldOk(catalog, i, choose) && LastWithName(catalog, choose, n, i) ==>
        Lookup(row, NameAt(catalog, i)) == Some(SampleValue(catalog[i], i, choose).value)
  {
    if n > 0 {
      var prev := SampleEntries(catalog, choose, n - 1).value;
      SampleEntriesContents(catalog, choose, n - 1);
      var last := n - 1;
      var name := NameAt(catalog, last);
      var v := SampleValue(catalog[last], last, choose).value;
      var row := SampleEntries(catalog, choose, n).value;
      assert row == Assign(prev, name, v);
      AssignKeepsDistinct(prev, name, v);
      NamesStep(catalog, choose, n);
      forall i | 0 <= i < n && FieldOk(catalog, i, choose) && LastWithName(catalog, choose, n, i)
        ensures Lookup(row, NameAt(catalog, i)) == Some(SampleValue(catalog[i], i, choose).value)
      {
        if i < n - 1 {
          assert NameAt(catalog, i) != name;
          assert LastWithName(catalog, choose, n - 1, i);
        }
      }
    }
  }

  /** The names of the usable fields among the first `n` grow by the `n`-th field's name. */
  lemma NamesStep(catalog: seq<FieldRecord>, choose: Chooser, n: nat)
    requires 0 < n <= |catalog| && FieldOk(catalog, n - 1, choose)
    ensures (set i | 0 <= i < n && FieldOk(catalog, i, choose) :: NameAt(catalog, i))
      == (set i | 0 <= i < n - 1 && FieldOk(catalog, i, choose) :: NameAt(catalog, i)) + {NameAt(catalog, n - 1)}
  {
    var before := set i | 0 <= i < n - 1 && FieldOk(catalog, i, choose) :: NameAt(catalog, i);
    var after := set i | 0 <= i < n && FieldOk(catalog, i, choose) :: NameAt(catalog, i);
    forall x | x in after ensures x in before + {NameAt(catalog, n - 1)} {
      var i :| 0 <= i < n && FieldOk(catalog, i, choose) && NameAt(catalog, i) == x;
      if i < n - 1 { assert x in before; }
    }
    forall x | x in before + {NameAt(catalog, n - 1)} ensures x in after {
      if x in before {
        var i :| 0 <= i < n - 1 && FieldOk(catalog, i, choose) && NameAt(catalog, i) == x;
        assert x in after;
      }
    }
  }

  /** The column list of the template (line 133): every record's FieldName, in catalog order. */
  function Names(catalog: seq<FieldRecord>): (r: seq<string>)
    requires forall i :: 0 <= i < |catalog| ==> FieldNameOf(catalog[i], i).Success?
    ensures |r| == |catalog|
    ensures forall i :: 0 <= i < |catalog| ==> r[i] == NameAt(catalog, i)
  {
    seq(|catalog|, i requires 0 <= i < |catalog| && FieldNameOf(catalog[i], i).Success? => NameAt(catalog, i))
  }

  /** What `get_fields` writes to the template file: the columns and the sample row. */
  datatype SpreadsheetTemplate = SpreadsheetTemplate(catalog: seq<FieldRecord>, header: seq<string>, sample: Row)

  /**
   * The column list and the sample row of a catalog, the identity cell
   * overwritten with "Sample". It exists exactly when every field has a
   * usable name and a sample value, and then the header lists every field's
   * name in catalog order.
   */
  function TemplateOf(catalog: seq<FieldRecord>, choose: Chooser): (r: Result<SpreadsheetTemplate, FieldsError>)
    ensures r.Success? <==> forall i :: 0 <= i < |catalog| ==> FieldOk(catalog, i, choose)
    ensures r.Failure? ==>
      exists i :: 0 <= i < |catalog| && !FieldOk(catalog, i, choose)
        && (forall j :: 0 <= j < i ==> FieldOk(catalog, j, choose))
        && r.error == FieldError(catalog, i, choose)
    ensures r.Success? ==> r.value.catalog == catalog
    ensures r.Success? ==>
      && |r.value.header| == |catalog|
      && forall i :: 0 <= i < |catalog| ==> FieldOk(catalog, i, choose) && r.value.header[i] == NameAt(catalog, i)
    ensures r.Success? ==> Lookup(r.value.sample, IdentityColumn) == Some(Text(SampleIdentity))
  {
    match SampleEntries(catalog, choose, |catalog|)
    case Failure(e) => Failure(e)
    case Success(entries) =>
      assert forall i :: 0 <= i < |catalog| ==> FieldNameOf(catalog[i], i).Success? by {
        forall i | 0 <= i < |catalog| ensures FieldNameOf(catalog[i], i).Success? {
          assert FieldOk(catalog, i, choose);
        }
      }
      Success(SpreadsheetTemplate(catalog, Names(catalog), Assign(entries, IdentityColumn, Text(SampleIdentity))))
  }

  /**
   * The sample row of a catalog that starts with the identity record: the
   * identity column heads the header; the row has exactly the header's
   * names as keys, none repeated; and overwriting the identity cell with
   * "Sample" keeps every column where the comprehension put it.
   */
  lemma TemplateColumns(catalog: seq<FieldRecord>, choose: Chooser)
    requires TemplateOf(catalog, choose).Success?
    requires |catalog| > 0 && catalog[0] == IdentityRecord
    ensures var t := TemplateOf(catalog, choose).value;
      && t.header[0] == IdentityColumn
      && Distinct(t.sample)
      && KeySet(t.sample) == (set i | 0 <= i < |t.header| :: t.header[i])
      && Keys(t.sample) == Keys(SampleEntries(catalog, choose, |catalog|).value)
  {
    var t := TemplateOf(catalog, choose).value;
    var entries := SampleEntries(catalog, choose, |catalog|).value;
    SampleEntriesContents(catalog, choose, |catalog|);
    assert t.sample == Assign(entries, IdentityColumn, Text(SampleIdentity));
    AssignKeepsDistinct(entries, IdentityColumn, Text(SampleIdentity));
    assert NameAt(catalog, 0) == IdentityColumn;
    assert IdentityColumn in KeySet(entries);
    AssignKeepsKeys(entries, IdentityColumn, Text(SampleIdentity));
    var names := set i | 0 <= i < |catalog| && FieldOk(catalog, i, choose) :: NameAt(catalog, i);
    var columns := set i | 0 <= i < |t.header| :: t.header[i];
    forall x | x in names ensures x in columns {
      var i :| 0 <= i < |catalog| && FieldOk(catalog, i, choose) && NameAt(catalog, i) == x;
      assert t.header[i] == x;
    }
    forall x | x in columns ensures x in names {
      var i :| 0 <= i < |t.header| && t.header[i] == x;
      assert FieldOk(catalog, i, choose) && NameAt(catalog, i) == x;
    }
    assert KeySet(t.sample) == KeySet(entries) + {IdentityColumn} == names;
  }

  /** The position of the first record, from `from` on, that has no FieldName. */
  function FirstUnnamed(records: seq<FieldRecord>, from: nat): (r: Option<nat>)
    requires from <= |records|
    decreases |records| - from
    ensures r.None? ==> forall k :: from <= k < |records| ==> FieldNameKey in records[k]
    ensures r.Some? ==>
      && from <= r.value < |records| && FieldNameKey !in records[r.value]
      && forall k :: from <= k < r.value ==> FieldNameKey in records[k]
  {
    if from == |records| then None
    else if FieldNameKey !in records[from] then Some(from)
    else FirstUnnamed(records, from + 1)
  }

  /**
   * `get_fields` from the parsed records onwards: a record without a
   * FieldName stops it with a KeyError while the field listing is written,
   * before the identity record is prepended (its position is reported in
   * catalog terms, one past its place among the records); otherwise the
   * template of the identity record followed by the records.
   */
  function BuildTemplate(records: seq<FieldRecord>, choose: Chooser): (r: Result<SpreadsheetTemplate, FieldsError>)
    ensures (exists k :: 0 <= k < |records| && FieldNameKey !in records[k]) <==>
      r.Failure? && r.error.MissingFieldName?
    ensures r.Failure? && r.error.MissingFieldName? ==>
      var k := r.error.position - 1;
      && 0 <= k < |records| && FieldNameKey !in records[k]
      && forall j :: 0 <= j < k ==> FieldNameKey in records[j]
    ensures FirstUnnamed(records, 0).None? ==> r == TemplateOf([IdentityRecord] + records, choose)
    ensures r.Success? <==> forall i :: 0 <= i < |records| + 1 ==> FieldOk([IdentityRecord] + records, i, choose)
    ensures r.Success? ==> r.value.catalog == [IdentityRecord] + records
    ensures r.Success? ==> |r.value.header| == |records| + 1 && r.value.header[0] == IdentityColumn
    ensures r.Success? ==> Lookup(r.value.sample, IdentityColumn) == Some(Text(SampleIdentity))
  {
    match FirstUnnamed(records, 0)
    case Some(k) =>
      var catalog := [IdentityRecord] + records;
      assert catalog[k + 1] == records[k];
      assert !FieldOk(catalog, k + 1, choose);
      Failure(MissingFieldName(k + 1))
    case None =>
      var catalog := [IdentityRecord] + records;
      var t := TemplateOf(catalog, choose);
      assert t.Failure? ==> !t.error.MissingFieldName? by {
        if t.Failure? {
          var i :| 0 <= i < |catalog| && !FieldOk(catalog, i, choose) && t.error == FieldError(catalog, i, choose);
          assert FieldNameKey in catalog[i] by {
            if i > 0 { assert catalog[i] == records[i - 1]; }
          }
        }
      }
      t
  }

  /**
   * `get_fields` on a dump: it succeeds exactly when every field of the
   * dump's catalog has a usable name and a sample value, and then the
   * header lists the catalog's names in order and the identity cell is
   * "Sample".
   */
  function GetFields(dump: string, choose: Chooser): (r: Result<SpreadsheetTemplate, FieldsError>)
    ensures r.Success? <==> forall i :: 0 <= i < |FieldCatalog(dump)| ==> FieldOk(FieldCatalog(dump), i, choose)
    ensures r.Success? ==>
      && r.value.catalog == FieldCatalog(dump)
      && |r.value.header| == |FieldCatalog(dump)|
      && forall i :: 0 <= i < |FieldCatalog(dump)| ==>
           FieldOk(FieldCatalog(dump), i, choose) && r.value.header[i] == NameAt(FieldCatalog(dump), i)
    ensures r.Success? ==> Lookup(r.value.sample, IdentityColumn) == Some(Text(SampleIdentity))
  {
    assert FieldCatalog(dump) == [IdentityRecord] + Records(dump);
    BuildTemplate(Records(dump), choose)
  }

  /**
   * Why `get_fields` fails: a record without FieldName raises KeyError at
   * the first such record, while the field listing is written; otherwise
   * the comprehension raises the error of the first field that has no
   * usable name or no sample value.
   */
  lemma GetFieldsError(dump: string, choose: Chooser)
    requires GetFields(dump, choose).Failure?
    ensures var catalog := FieldCatalog(dump);
      var e := GetFields(dump, choose).error;
      && (e.MissingFieldName? <==> exists j :: 0 <= j < |catalog| && FieldNameKey !in catalog[j])
      && exists i ::
           && 0 <= i < |catalog| && !FieldOk(catalog, i, choose) && e == FieldError(catalog, i, choose)
           && forall j :: 0 <= j < i ==>
                if e.MissingFieldName? then FieldNameKey in catalog[j] else FieldOk(catalog, j, choose)
  {
    assert FieldCatalog(dump) == [IdentityRecord] + Records(dump);
    BuildTemplateError(Records(dump), choose);
  }

  /** GetFieldsError, over the parsed records. */
  lemma BuildTemplateError(records: seq<FieldRecord>, choose: Chooser)
    requires BuildTemplate(records, choose).Failure?
    ensures var catalog := [IdentityRecord] + records;
      var e := BuildTemplate(records, choose).error;
      && (e.MissingFieldName? <==> exists j :: 0 <= j < |catalog| && FieldNameKey !in catalog[j])
      && exists i ::
           && 0 <= i < |catalog| && !FieldOk(catalog, i, choose) && e == FieldError(catalog, i, choose)
           && forall j :: 0 <= j < i ==>
                if e.MissingFieldName? then FieldNameKey in catalog[j] else FieldOk(catalog, j, choose)
  {
    var catalog := [IdentityRecord] + records;
    var e := BuildTemplate(records, choose).error;
    assert FieldNameKey in catalog[0];
    assert forall j :: 0 < j < |catalog| ==> catalog[j] == records[j - 1];
    match FirstUnnamed(records, 0)
    case Some(k) =>
      assert e == MissingFieldName(k + 1);
      assert FieldNameKey !in catalog[k + 1];
      assert !FieldOk(catalog, k + 1, choose) && e == FieldError(catalog, k + 1, choose);
      assert forall j :: 0 <= j < k + 1 ==> FieldNameKey in catalog[j];
    case None =>
      assert forall j :: 0 <= j < |catalog| ==> FieldNameKey in catalog[j];
      assert BuildTemplate(records, choose) == TemplateOf(catalog, choose);
      assert !e.MissingFieldName?;
  }

  /**
   * The sample cell of field `i` of the catalog, when no later field shares
   * its name and it is not the identity column: its position when it
   * declares no state options, otherwise one of its options (one character
   * of the option when only one was declared).
   */
  lemma SampleCell(dump: string, choose: Chooser, i: nat)
    requires GetFields(dump, choose).Success?
    requires 0 < i < |FieldCatalog(dump)|
    requires var catalog := FieldCatalog(dump);
      && FieldOk(catalog, i, choose)
      && NameAt(catalog, i) != IdentityColumn
      && LastWithName(catalog, choose, |catalog|, i)
    ensures var field := FieldCatalog(dump)[i];
      var c := Lookup(GetFields(dump, choose).value.sample, NameAt(FieldCatalog(dump), i));
      && c.Some?
      && (OptionKey !in field ==> c.value == Index(i))
      && (OptionKey in field && field[OptionKey].Seq? ==> c.value.Text? && c.value.s in field[OptionKey].items)
      && (OptionKey in field && field[OptionKey].Scalar? ==>
            c.value.Text? && |c.value.s| == 1 && c.value.s[0] in field[OptionKey].s)
  {
    var catalog := FieldCatalog(dump);
    var entries := SampleEntries(catalog, choose, |catalog|).value;
    SampleEntriesContents(catalog, choose, |catalog|);
    assert GetFields(dump, choose).value.sample == Assign(entries, IdentityColumn, Text(SampleIdentity));
  }

  /**
   * The chooser decides only the option cells: whether a template can be
   * built, its column list and its identity cell are the same for every
   * chooser.
   */
  lemma ChooserIrrelevant(dump: string, c1: Chooser, c2: Chooser)
    ensures GetFields(dump, c1).Success? <==> GetFields(dump, c2).Success?
    ensures GetFields(dump, c1).Success? ==>
      && GetFields(dump, c1).value.header == GetFields(dump, c2).value.header
      && Lookup(GetFields(dump, c1).value.sample, IdentityColumn)
         == Lookup(GetFields(dump, c2).value.sample, IdentityColumn)
  {
    var catalog := FieldCatalog(dump);
    forall i | 0 <= i < |catalog| ensures FieldOk(catalog, i, c1) <==> FieldOk(catalog, i, c2) {
      assert SampleValue(catalog[i], i, c1).Success? <==> SampleValue(catalog[i], i, c2).Success?;
    }
  }

  /**
   * A field whose FieldName was given twice and whose single state option
   * is empty raises the IndexError of the sample draw, not the TypeError of
   * the list key: the value is evaluated before the pair is stored.
   */
  lemma DrawFailsBeforeHashing(choose: Chooser)
    ensures TemplateOf([IdentityRecord, map[FieldNameKey := Seq(["a", "b"]), OptionKey := Scalar("")]], choose)
         == Failure(NoOptionToChoose(1))
  {
    var catalog := [IdentityRecord, map[FieldNameKey := Seq(["a", "b"]), OptionKey := Scalar("")]];
    assert FieldOk(catalog, 0, choose);
    assert SampleValue(catalog[1], 1, choose) == Failure(NoOptionToChoose(1));
    assert SampleEntries(catalog, choose, 1).Success?;
    assert SampleEntries(catalog, choose, 2) == Failure(NoOptionToChoose(1));
  }

  /**
   * A catalog with a "Name" field and an "Age" field that declares the
   * options "Young" and "Old", after the identity record.
   */
  const NameAgeCatalog: seq<FieldRecord> := [
    IdentityRecord,
    map[FieldNameKey := Scalar("Name")],
    map[FieldNameKey := Scalar("Age"), OptionKey := Seq(["Young", "Old"])]]

  /** Every field of that catalog is usable; "Age" samples one of its options. */
  lemma NameAgeFields(choose: Chooser)
    ensures forall i :: 0 <= i < 3 ==> FieldOk(NameAgeCatalog, i, choose)
    ensures NameAt(NameAgeCatalog, 0) == IdentityColumn
    ensures NameAt(NameAgeCatalog, 1) == "Name"
    ensures NameAt(NameAgeCatalog, 2) == "Age"
    ensures SampleValue(NameAgeCatalog[2], 2, choose).value in {Text("Young"), Text("Old")}
  {
    var catalog := NameAgeCatalog;
    assert FieldNameOf(catalog[0], 0) == Success(IdentityColumn);
    assert FieldNameOf(catalog[1], 1) == Success("Name");
    assert FieldNameOf(catalog[2], 2) == Success("Age");
    assert SampleValue(catalog[0], 0, choose) == Success(Index(0));
    assert SampleValue(catalog[1], 1, choose) == Success(Index(1));
  }

  /**
   * The template of that catalog: the columns are the identity column,
   * "Name" and "Age", and the "Age" cell is one of the two options.
   */
  lemma NameAgeExample(choose: Chooser)
    ensures var t := TemplateOf(NameAgeCatalog, choose);
      && t.Success?
      && t.value.header == [IdentityColumn, "Name", "Age"]
      && Lookup(t.value.sample, "Age") in {Some(Text("Young")), Some(Text("Old"))}
  {
    var catalog := NameAgeCatalog;
    NameAgeFields(choose);
    var cell := SampleValue(catalog[2], 2, choose).value;
    var t := TemplateOf(catalog, choose);
    assert t.Success?;
    var header := t.value.header;
    assert |header| == 3;
    assert header[0] == NameAt(catalog, 0) == IdentityColumn;
    assert header[1] == NameAt(catalog, 1) == "Name";
    assert header[2] == NameAt(catalog, 2) == "Age";
    assert header == [IdentityColumn, "Name", "Age"];
    var two := SampleEntries(catalog, choose, 2).value;
    assert FieldNameKey in catalog[2] && FieldNameOf(catalog[2], 2) == Success("Age");
    var entries := Assign(two, "Age", cell);
    assert SampleEntries(catalog, choose, 3) == Success(entries);
    assert Lookup(entries, "Age") == Some(cell);
    assert t.value.sample == Assign(entries, IdentityColumn, Text(SampleIdentity));
    assert Lookup(t.value.sample, "Age") == Some(cell);
  }
}

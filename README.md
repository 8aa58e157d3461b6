# form-writer, modelled in Dafny

form-writer is a small command-line tool in one Python file, `form-writer.py`.
It fills PDF forms from a spreadsheet in two commands:

- **`get_fields`** reads the field dump an external PDF utility prints
  (`pdftk dump_data_fields`). The dump is a text of `---`-separated blocks of
  CRLF lines `Key: Value`. The command parses each block into a field record.
  When an attribute name repeats inside a block, `dict_insert_append` collects
  its values into a list. It then puts a synthetic record for the identity
  column `form-writer form id` at the front. From that catalog it derives a
  spreadsheet template: the column list and one sample row, with the identity
  cell set to "Sample".
- **`write_forms`** calls `form_write` on every data row, in order. A row
  without the identity column raises and ends the batch. A row whose identity
  value is empty is skipped. Every other row gets an intermediate file
  `data.fdf`, one form-fill call and a document named
  `<template base name> - <identity>.pdf`. Then `data.fdf` is removed.

## Modules

- `Wrappers` holds `Option` and `Result`.
- `Strings` models Python's `str.find`, `str.split` with a separator and
  `str.partition`.
- `Dicts` models an insertion-ordered dict as a list of items. The sample row
  and the spreadsheet rows are dicts whose order matters.
- `FieldRecords` holds:
  - the value type, scalar or list;
  - `Inserted`, the specification of `dict_insert_append`;
  - the class `Record`, whose `InsertAppend` updates a record in place;
  - the fold `Merge` and the loop `RowToDict`.
- `Catalog` splits the dump into blocks, parses the records and builds the
  catalog.
- `Template` models `sampleValue`, the dict comprehension, the header and
  `get_fields` from the dump to the template. `random.choice` is replaced by
  an injected `Chooser`.
- `Forms` models:
  - the document name;
  - the per-row plan of `form_write`;
  - one call of `form_write`, including whether `data.fdf` exists afterwards;
  - the `write_forms` loop.
- `DumpExample` takes a concrete two-field dump all the way to its catalog
  and its template header.

## Model

| member | source | states |
|---|---|---|
| FieldRecords.Inserted | form-writer.py:73-79 | A fresh key stores the value itself. A scalar becomes the list [old, new]. A list gets the value appended. Every other key is unchanged. The key's values are the old ones followed by the new one. |
| FieldRecords.Record.InsertAppend | form-writer.py:56-79 | Updating the record in place leaves exactly the record `Inserted` describes. |
| FieldRecords.MergeCollects | form-writer.py:101-109 | Folding `dict_insert_append` over the pairs makes a key present exactly when some pair carries it. The key holds all its values in order of appearance. It is a scalar exactly when the key occurs once. |
| FieldRecords.MergeDistinct | form-writer.py:105-107 | If no key repeats, the fold maps each key to its own value as a scalar, and no other key is present. |
| FieldRecords.MergeTwice | form-writer.py:76-77 | A key seen with v1 and then v2 holds the list [v1, v2]. |
| FieldRecords.ValuesOfDistinct | form-writer.py:105-107 | If no key repeats, each key occurs with exactly its own value. |
| FieldRecords.AbsentKey | form-writer.py:105-107 | A key that no pair carries has no values. |
| FieldRecords.NonEmpty | form-writer.py:103 | The `if el` filter keeps no empty line, and keeps every other line exactly as often as it occurs. |
| FieldRecords.NonEmptyAppend | form-writer.py:103 | The filter keeps the lines in their order: filtering a concatenation is the concatenation of the filtered parts. |
| FieldRecords.FieldLines | form-writer.py:103 | There is one pair per non-empty CRLF line of the block. |
| FieldRecords.FieldLine | form-writer.py:103 | Each pair comes from its line. A line with ": " is cut at its first occurrence. A line without it gives the whole line and an empty value. |
| FieldRecords.RowToDict | form-writer.py:101-109 | The loop over the pairs with `InsertAppend` returns the fold of the block's pairs, `ParseBlock`. |
| Strings.FindFrom | form-writer.py:99 | Gives the first occurrence at or after the start position, or none when there is none. |
| Strings.Find | form-writer.py:99 | Gives the first occurrence of the separator. It succeeds exactly when the separator occurs. |
| Strings.NotContainsChar | form-writer.py:161 | A string in which the one-character separator does not occur lacks that character. |
| Strings.Split | form-writer.py:99 | `split` always gives at least one piece. |
| Strings.SplitAt | form-writer.py:99 | At an occurrence of the separator that no earlier character could start, `split` gives the text before it and then the pieces of the rest. |
| Strings.SplitWhole | form-writer.py:99 | A string without the separator's first character is split into itself alone. |
| Strings.SplitConcat | form-writer.py:99 | For a text without the separator's first character, followed by the separator and a rest, `split` gives that text and then the pieces of the rest. |
| Strings.PartitionConcat | form-writer.py:103 | For such a text followed by the separator and a rest, `partition` gives exactly the text, the separator and the rest. |
| Strings.SplitCut | form-writer.py:99 | At the first separator, the string is cut into the text before it and the split of the rest. |
| Strings.JoinCons | form-writer.py:99 | Joining a piece in front of at least one more piece adds the piece and one separator. |
| Strings.SplitJoin | form-writer.py:99 | Joining the pieces of `split` with the separator gives back the string. |
| Strings.SplitPiecesFree | form-writer.py:99 | No piece contains the separator. The string is cut exactly when it contains the separator. |
| Strings.HeadIsFree | form-writer.py:99 | The text before the first separator contains no separator. |
| Strings.SplitHead | form-writer.py:161 | The first piece is a separator-free prefix of the string. It is followed by the separator unless it is the whole string. |
| Strings.Partition | form-writer.py:103 | With the separator present, the result is before + sep + after, cut at the first occurrence. Without it, the result is the whole string and two empty strings. |
| Dicts.Lookup | form-writer.py:162 | `d[k]` is defined exactly when k is a key. |
| Dicts.LookupFirst | form-writer.py:162 | `d[k]` is the value of the first item whose key is k. |
| Dicts.KeySetCons | form-writer.py:129 | The keys of an item followed by a dict are that item's key and the dict's keys. |
| Dicts.Assign | form-writer.py:129-130 | `d[k] = v` maps k to v and keeps every other key's value. It adds k to the keys. An absent key is appended at the end. |
| Dicts.AssignKeepsKeys | form-writer.py:130 | Assigning to a present key keeps every key in its position. |
| Dicts.KeysCons | form-writer.py:130 | The key list of an item followed by a dict is that item's key followed by the dict's key list. |
| Dicts.AssignKeepsDistinct | form-writer.py:129-130 | Assigning never duplicates a key. |
| Catalog.BlocksCoverDump | form-writer.py:99 | The `[1:]` slice drops only the text before the first `---`. The blocks and that text are separator-free, and together they rebuild the dump. A dump without `---` has no blocks. |
| Catalog.Records | form-writer.py:111 | There is one record per block, in dump order, each being that block's `row_to_dict`. |
| Catalog.FieldCatalog | form-writer.py:122 | The identity record comes first, then the dump's records. |
| Template.FieldNameOf | form-writer.py:129 | Gives the key when FieldName is a plain string. A missing FieldName is a KeyError. A repeated FieldName, stored as a list, is the TypeError of an unhashable key. |
| Template.SampleValue | form-writer.py:124-128 | Without state options, the value is the field's position. With a list of options, it is one of them. With a single option, it is one of its characters. An empty option value gives the IndexError of `random.choice`. |
| Template.SampleEntries | form-writer.py:129 | The comprehension succeeds exactly when every field has a name and a sample value. Otherwise it fails with the error of the first field that has none. Within a field, a missing FieldName raises first, then the sample draw, then the hashing of a list-valued name. |
| Template.SampleEntriesContents | form-writer.py:129 | On success the keys are exactly the field names, none repeated. A name shared by several fields holds the value of the last of them. |
| Template.NamesStep | form-writer.py:129 | The set of names grows by each usable field's name. |
| Template.Names | form-writer.py:133 | The column list gives every field's name in catalog order. |
| Template.TemplateOf | form-writer.py:129-133 | A template exists exactly when every field is usable. Otherwise the error is that of the first unusable field. The header lists the names in catalog order. The identity cell is "Sample". |
| Template.TemplateColumns | form-writer.py:129-133 | The identity column heads the header. The sample row has exactly the header's names as keys, none repeated. Overwriting the identity cell keeps every column in its place. |
| Template.FirstUnnamed | form-writer.py:115 | Finds the first record without a FieldName, or confirms that every record has one. |
| Template.BuildTemplate | form-writer.py:113-135 | A record without FieldName and a KeyError are equivalent, and the error reports the first such record. With every record named, the result is the template of the identity record followed by the records. It succeeds exactly when every field of that catalog is usable. On success the catalog is the identity record followed by the records. The header starts with the identity column. The identity cell is "Sample". |
| Template.GetFields | form-writer.py:98-135 | `get_fields` succeeds exactly when every field of the dump's catalog is usable. Then the template is built over that catalog: the header lists the catalog's names in order, and the identity cell is "Sample". |
| Template.GetFieldsError | form-writer.py:113-129 | A KeyError is raised exactly when some record lacks FieldName, and it names the first such record. Any other failure is the error of the first unusable field. |
| Template.BuildTemplateError | form-writer.py:113-129 | The same failure account, over the parsed records. |
| Template.DrawFailsBeforeHashing | form-writer.py:124-129 | A field with a repeated FieldName and an empty single option raises the IndexError of the draw, not the TypeError of the list key. |
| Template.SampleCell | form-writer.py:124-130 | The sample cell of a field that is not overridden is its position, or one of its declared options. |
| Template.ChooserIrrelevant | form-writer.py:124-133 | The random draw affects only option cells. Success, the header and the identity cell are the same for every chooser. |
| Template.NameAgeFields | form-writer.py:124-129 | In a concrete catalog every field is usable, and the Age field samples one of its two options. |
| Template.NameAgeExample | form-writer.py:122-133 | That catalog's template has the header [identity, Name, Age], and its Age cell is "Young" or "Old". |
| Forms.DocumentName | form-writer.py:161 | The base name is the prefix of the template path up to its first '.', or the whole path when it has none. |
| Forms.PdfNameInjective | form-writer.py:173 | Two rows of one template get the same document name exactly when their identity values are equal. |
| Forms.PlanRow | form-writer.py:159-166 | A missing identity column is a KeyError. An empty identity (`""` or `0`) skips the row. Otherwise the whole row goes to the FDF and the document is named after the base name and the identity. |
| Forms.RowStep | form-writer.py:166-182 | A KeyError or a skip leaves `data.fdf` as it was. A filled row leaves no `data.fdf`. With the intended cleanup, or when the form-fill call leaves `data.fdf` in place, the row succeeds exactly when it plans, and then has the outcome it has by itself. As written, a filled row raises NameError exactly when the form-fill call removed `data.fdf`. |
| Forms.FormWrite | form-writer.py:159-182 | The intended `form_write`, written step by step, gives the outcome and the `data.fdf` state of `RowStep`. |
| Forms.StoppedBatchStays | form-writer.py:155-156 | Once the loop has raised, later rows change nothing. |
| Forms.BatchIsolatesRows | form-writer.py:155-156 | With the intended `pass` cleanup, the batch fails exactly when some row lacks the identity column, and it stops at the first such row. Otherwise every row is done. Each row done has the outcome it has by itself, in row order. |
| Forms.BatchRemovesIntermediate | form-writer.py:155-182 | With the intended `pass` cleanup, after the batch, `data.fdf` exists exactly when it existed before and no row was written. |
| Forms.WriteForms | form-writer.py:150-157 | The loop over the rows, stopping at the first exception, computes the batch `RunBatch` specifies with the intended `pass` cleanup. |
| Forms.ThreeRowBatch | form-writer.py:155-173 | With the intended `pass` cleanup, rows with identities "1", "" and "3" give documents 1 and 3, skip the second, and leave no `data.fdf`. |
| Forms.CleanupAsWrittenAbortsBatch | form-writer.py:177-180 | As written, a form-fill that removes `data.fdf` makes the first row raise NameError, so no document is reported. With the intended cleanup both rows are written. |
| Forms.CleanupRulesAgree | form-writer.py:177-180 | When every form-fill call leaves `data.fdf` in place, the code as written and as intended agree. |
| Forms.SampleDocument | form-writer.py:139-141 | `get_fields --sample` always writes a document named "<base> - Sample.pdf", with the whole sample row as its FDF. |
| DumpExample.NameAgeBlocks | form-writer.py:99 | A dump of a "Name" block and an "Age" block has exactly those two blocks. |
| DumpExample.NonEmptyFramed | form-writer.py:103 | The filter drops the empty lines before and after a block's lines and keeps the non-empty lines unchanged. |
| DumpExample.NameBlockLines | form-writer.py:103 | The "Name" block yields the one pair (FieldName, Name). |
| DumpExample.AgeBlockLines | form-writer.py:103 | The "Age" block yields (FieldName, Age), (FieldStateOption, Young) and (FieldStateOption, Old), in that order. |
| DumpExample.MergeOneThenTwice | form-writer.py:73-79 | A key seen once and then another key seen twice give a record with one scalar and one two-element list. |
| DumpExample.NameAgeRecords | form-writer.py:101-111 | The two blocks parse to the "Name" record and to the "Age" record whose options are the list [Young, Old]. |
| DumpExample.NameAgeDumpCatalog | form-writer.py:99-120 | The catalog `get_fields` builds from that dump is the identity record, the "Name" record and the "Age" record. |
| DumpExample.NameAgeDumpFields | form-writer.py:99-133 | From that dump `get_fields` succeeds with the header [identity, Name, Age], whatever option the draw picks. |

## Left out

- The command-line layer (click options, defaults, `main`) and every `print` are left out. They do not affect any value the model computes.
- The external `pdftk` processes are not modelled. The dump is a parameter of `GetFields`. `keptByFill` stands for the form-fill call's only visible effect, whether `data.fdf` still exists afterwards. The exit status of the fill call is ignored, as in the source.
- Byte-to-text decoding of the dump is left out. The dump is taken as already-decoded text.
- `forge_fdf` is a foreign call and is left out. The model keeps the list of `(key, value)` pairs handed to it, which is the whole row in order.
- Writing `fields.txt`, `entries.csv` and the documents is left out. The model computes what would be written: the field catalog, the header and the sample row, and the document name and FDF of each row. CSV quoting is not modelled.
- Template.SampleValue: `random.choice` is modelled by an injected chooser reduced modulo the number of options. The contract states membership, not a distribution.
- Reading the spreadsheet with `csv.DictReader` (restval `None` for short rows, extra columns under a `None` key) is left out. A data row is given directly as an ordered dict whose cells are the strings read.
- Field records are Dafny maps, so their key order is not modelled. It only shows in the `fields.txt` listing, which is left out. The sample row and data rows, whose key order matters, are ordered dicts.
- Lookup: its own contract states only when `d[k]` is defined. Which value it returns, that of the first item with the key, is stated by the lemma `Dicts.LookupFirst`, kept apart so that every caller of Lookup does not carry its existential.
- Forms.FormWrite: it models the intended cleanup only (`pass`, no NameError). The as-written cleanup is `RowStep` with `AsWritten` and the finding below.
- Forms.BatchIsolatesRows: it is proved for `RunBatch` with the intended cleanup (`Tolerant`) only. As written, a form-fill call that removes `data.fdf` makes that row raise NameError and ends the batch (`Forms.CleanupAsWrittenAbortsBatch`).
- Forms.BatchRemovesIntermediate: it is proved for the intended cleanup only. As written, a row whose form-fill call removed `data.fdf` raises NameError and is not written, yet `data.fdf` is gone after it.
- Forms.ThreeRowBatch: it is proved for the intended cleanup only. As written, it holds when every form-fill call leaves `data.fdf` in place (`Forms.CleanupRulesAgree`).
- Forms.WriteForms: it runs `FormWrite`, so it also models the intended cleanup only. The as-written batch is `RunBatch` with `AsWritten`.

## Findings

| source | as written | input that shows it | evidently intended | confidence | as-written member | corrected member |
|---|---|---|---|---|---|---|
| form-writer.py:177-180 | `except FileNotFoundError: Pass` evaluates the undefined name `Pass`, so a `data.fdf` already gone at cleanup raises NameError and ends `write_forms` | two rows with identities "1" and "3", and a form-fill call after which `data.fdf` no longer exists | `pass`: nothing to remove, carry on with the next row | not executed; the name is undefined in the file | Forms.CleanupAsWrittenAbortsBatch | Forms.BatchIsolatesRows |

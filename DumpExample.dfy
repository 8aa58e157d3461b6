/**
 * A concrete `dump_data_fields` output with a text field "Name" and a field
 * "Age" that declares two state options, and what `get_fields` parses from it.
 */
module DumpExample {
  import opened Strings
  import opened FieldRecords
  import opened Catalog
  import opened Template

  /** The attribute lines of the two fields' dump blocks. */
  const NameLine := FieldNameKey + KeySeparator + "Name"
  const AgeLine := FieldNameKey + KeySeparator + "Age"
  const YoungLine := OptionKey + KeySeparator + "Young"
  const OldLine := OptionKey + KeySeparator + "Old"

  /** The dump block of a text field "Name". */
  const NameBlock := LineSeparator + NameLine + LineSeparator

  /** The dump block of a field "Age" that declares the options "Young" and "Old". */
  const AgeBlock := LineSeparator + AgeLine + LineSeparator + YoungLine + LineSeparator + OldLine + LineSeparator

  /** A dump of those two fields, each block opened by the separator. */
  const NameAgeDump := BlockSeparator + NameBlock + BlockSeparator + AgeBlock

  /** Neither block holds the first character of the block separator. */
  lemma PlainBlocks()
    ensures '-' !in NameBlock && '-' !in AgeBlock
  {
  }

  /** No line holds a line break, and neither key holds the key separator's colon. */
  lemma PlainLines()
    ensures '\r' !in NameLine && '\r' !in AgeLine && '\r' !in YoungLine && '\r' !in OldLine
    ensures ':' !in FieldNameKey && ':' !in OptionKey && FieldNameKey != OptionKey
  {
  }

  /** Regrouping four pieces behind an empty first piece. */
  lemma Regroup(a: string, b: string, c: string, d: string)
    ensures a + b + c + d == "" + a + (b + c + d)
  {
  }

  /** That dump has exactly the two blocks. */
  lemma NameAgeBlocks()
    ensures Blocks(NameAgeDump) == [NameBlock, AgeBlock]
  {
    var sep := BlockSeparator;
    PlainBlocks();
    Regroup(sep, NameBlock, sep, AgeBlock);
    SplitConcat("", sep, NameBlock + sep + AgeBlock);
    SplitConcat(NameBlock, sep, AgeBlock);
    SplitWhole(AgeBlock, sep);
  }

  /** The padding that lets the framed blocks be cut piece by piece. */
  lemma PadOne(ls: string, x: string)
    ensures ls + x + ls == "" + ls + (x + ls + "")
  {
  }

  lemma PadThree(ls: string, x: string, y: string, z: string)
    ensures ls + x + ls + y + ls + z + ls == "" + ls + (x + ls + (y + ls + (z + ls + "")))
  {
  }

  /** A block of one line, framed by line separators, splits into that line between two empty ones. */
  lemma SplitFramedOne(ls: string, x: string)
    requires |ls| > 0 && ls[0] !in x
    ensures Split(ls + x + ls, ls) == ["", x, ""]
  {
    var t := x + ls + "";
    PadOne(ls, x);
    SplitWhole("", ls);
    SplitConcat(x, ls, "");
    SplitConcat("", ls, t);
    ConsTwo("", x, Split(t, ls));
  }

  /** A block of three lines, framed and separated by line separators. */
  lemma SplitFramedThree(ls: string, x: string, y: string, z: string)
    requires |ls| > 0 && ls[0] !in x && ls[0] !in y && ls[0] !in z
    ensures Split(ls + x + ls + y + ls + z + ls, ls) == ["", x, y, z, ""]
  {
    var t3 := z + ls + "";
    var t2 := y + ls + t3;
    var t1 := x + ls + t2;
    PadThree(ls, x, y, z);
    SplitWhole("", ls);
    SplitConcat(z, ls, "");
    SplitConcat(y, ls, t3);
    SplitConcat(x, ls, t2);
    SplitConcat("", ls, t1);
    ConsFour("", x, y, z, Split(t1, ls), Split(t2, ls), Split(t3, ls));
  }

  /** A piece in front of [x, e] makes the three-piece list. */
  lemma ConsTwo(e: string, x: string, p: seq<string>)
    requires p == [x] + [e]
    ensures [e] + p == [e, x, e]
  {
  }

  /** Pieces consed one by one in front of [z, e] make the five-piece list. */
  lemma ConsFour(e: string, x: string, y: string, z: string, p1: seq<string>, p2: seq<string>, p3: seq<string>)
    requires p3 == [z] + [e] && p2 == [y] + p3 && p1 == [x] + p2
    ensures [e] + p1 == [e, x, y, z, e]
  {
  }

  /** Lines that are all non-empty pass the filter unchanged. */
  lemma {:induction false} NonEmptyKeepsAll(lines: seq<string>)
    requires "" !in lines
    ensures NonEmpty(lines) == lines
  {
    if lines != [] {
      assert lines[0] in lines;
      assert forall k :: 0 <= k < |lines[1..]| ==> lines[1..][k] == lines[k + 1];
      NonEmptyKeepsAll(lines[1..]);
    }
  }

  /** The empty lines around a block's text are dropped and nothing else. */
  lemma NonEmptyFramed(lines: seq<string>)
    requires "" !in lines
    ensures NonEmpty([""] + lines + [""]) == lines
  {
    NonEmptyAppend([""] + lines, [""]);
    NonEmptyAppend([""], lines);
    NonEmptyKeepsAll(lines);
  }

  /** A block whose only non-empty line is `key: value` yields that one pair. */
  lemma FieldLinesOne(block: string, k: string, v: string)
    requires ':' !in k
    requires NonEmpty(Split(block, LineSeparator)) == [k + KeySeparator + v]
    ensures FieldLines(block) == [(k, v)]
  {
    PartitionConcat(k, KeySeparator, v);
  }

  /** A block of three non-empty `key: value` lines yields their three pairs in order. */
  lemma FieldLinesThree(block: string, k1: string, v1: string, k2: string, v2: string, k3: string, v3: string)
    requires ':' !in k1 && ':' !in k2 && ':' !in k3
    requires NonEmpty(Split(block, LineSeparator))
          == [k1 + KeySeparator + v1, k2 + KeySeparator + v2, k3 + KeySeparator + v3]
    ensures FieldLines(block) == [(k1, v1), (k2, v2), (k3, v3)]
  {
    PartitionConcat(k1, KeySeparator, v1);
    PartitionConcat(k2, KeySeparator, v2);
    PartitionConcat(k3, KeySeparator, v3);
  }

  /** The "Name" block holds the one pair (FieldName, Name). */
  lemma NameBlockLines()
    ensures FieldLines(NameBlock) == [(FieldNameKey, "Name")]
  {
    PlainLines();
    SplitFramedOne(LineSeparator, NameLine);
    assert ["", NameLine, ""] == [""] + [NameLine] + [""];
    NonEmptyFramed([NameLine]);
    FieldLinesOne(NameBlock, FieldNameKey, "Name");
  }

  /** The "Age" block holds its name and its two options, in dump order. */
  lemma AgeBlockLines()
    ensures FieldLines(AgeBlock) == [(FieldNameKey, "Age"), (OptionKey, "Young"), (OptionKey, "Old")]
  {
    PlainLines();
    SplitFramedThree(LineSeparator, AgeLine, YoungLine, OldLine);
    assert ["", AgeLine, YoungLine, OldLine, ""] == [""] + [AgeLine, YoungLine, OldLine] + [""];
    NonEmptyFramed([AgeLine, YoungLine, OldLine]);
    FieldLinesThree(AgeBlock, FieldNameKey, "Age", OptionKey, "Young", OptionKey, "Old");
  }

  /** One pair merges into a record holding just that pair's value. */
  lemma MergeOne(k: string, v: string)
    ensures Merge([(k, v)]) == map[k := Scalar(v)]
  {
    assert [(k, v)][..0] == [];
  }

  /** A key once and then another key twice: a scalar and a two-element list. */
  lemma MergeOneThenTwice(k1: string, v1: string, k2: string, v2: string, v3: string)
    requires k1 != k2
    ensures Merge([(k1, v1), (k2, v2), (k2, v3)]) == map[k1 := Scalar(v1), k2 := Seq([v2, v3])]
  {
    var pairs := [(k1, v1), (k2, v2), (k2, v3)];
    assert pairs[..2] == [(k1, v1), (k2, v2)];
    assert pairs[..2][..1] == [(k1, v1)];
    MergeOne(k1, v1);
    assert Merge(pairs[..2]) == Inserted(map[k1 := Scalar(v1)], k2, v2);
  }

  /** Each block parses to its field's record of the example catalog. */
  lemma NameAgeRecords()
    ensures ParseBlock(NameBlock) == NameAgeCatalog[1]
    ensures ParseBlock(AgeBlock) == NameAgeCatalog[2]
  {
    NameBlockLines();
    AgeBlockLines();
    PlainLines();
    MergeOne(FieldNameKey, "Name");
    MergeOneThenTwice(FieldNameKey, "Age", OptionKey, "Young", "Old");
  }

  /** `get_fields` builds exactly the example catalog from the two-field dump. */
  lemma NameAgeDumpCatalog()
    ensures FieldCatalog(NameAgeDump) == NameAgeCatalog
  {
    NameAgeBlocks();
    NameAgeRecords();
    var r := FieldCatalog(NameAgeDump);
    assert r[1..] == Records(NameAgeDump);
    assert r[1] == NameAgeCatalog[1] && r[2] == NameAgeCatalog[2];
  }

  /**
   * From the two-field dump, `get_fields` succeeds with the columns of the
   * identity column, "Name" and "Age", whatever option the draw picks.
   */
  lemma NameAgeDumpFields(choose: Chooser)
    ensures GetFields(NameAgeDump, choose).Success?
    ensures GetFields(NameAgeDump, choose).value.header == [IdentityColumn, "Name", "Age"]
  {
    NameAgeDumpCatalog();
    NameAgeFields(choose);
    var h := GetFields(NameAgeDump, choose).value.header;
    assert h[0] == IdentityColumn && h[1] == "Name" && h[2] == "Age";
  }
}

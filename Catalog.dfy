/**
 * The field catalog `get_fields` builds from the dump: the blocks after the
 * first `---`, parsed one record each, behind the synthetic record of the
 * identity column.
 */
module Catalog {
  import opened Strings
  import opened FieldRecords

  /** The reserved column whose value names each generated document. */
  const IdentityColumn := "form-writer form id"
  const BlockSeparator := "---"
  const FieldNameKey := "FieldName"

  /** The record standing for the identity column, first in every catalog. */
  const IdentityRecord: FieldRecord := map[FieldNameKey := Scalar(IdentityColumn)]

  /** The blocks `get_fields` keeps (form-writer.py line 99): every piece after the first separator. */
  function Blocks(dump: string): seq<string>
  {
    Split(dump, BlockSeparator)[1..]
  }

  /**
   * Only the text before the first separator is dropped: it and every block
   * are separator-free, and they rebuild the dump; a dump without any
   * separator has no blocks.
   */
  lemma BlocksCoverDump(dump: string)
    ensures forall k :: 0 <= k < |Blocks(dump)| ==> !Contains(Blocks(dump)[k], BlockSeparator)
    ensures !Contains(dump, BlockSeparator) <==> Blocks(dump) == []
    ensures var header := Split(dump, BlockSeparator)[0];
      && !Contains(header, BlockSeparator)
      && (Contains(dump, BlockSeparator) ==> dump == header + BlockSeparator + Join(Blocks(dump), BlockSeparator))
  {
    var pieces := Split(dump, BlockSeparator);
    SplitJoin(dump, BlockSeparator);
    SplitPiecesFree(dump, BlockSeparator);
    assert forall k :: 0 <= k < |Blocks(dump)| ==> Blocks(dump)[k] == pieces[k + 1];
    assert |pieces| > 1 ==>
      Join(pieces, BlockSeparator) == pieces[0] + BlockSeparator + Join(pieces[1..], BlockSeparator);
  }

  /** The records `get_fields` parses (line 111): one record per block, in dump order. */
  function Records(dump: string): (r: seq<FieldRecord>)
    ensures |r| == |Blocks(dump)|
    ensures forall k :: 0 <= k < |r| ==> r[k] == ParseBlock(Blocks(dump)[k])
  {
    var blocks := Blocks(dump);
    seq(|blocks|, k requires 0 <= k < |blocks| => ParseBlock(blocks[k]))
  }

  /** The catalog: the identity record followed by the dump's records. */
  function FieldCatalog(dump: string): (r: seq<FieldRecord>)
    ensures |r| == |Blocks(dump)| + 1
    ensures r[0] == IdentityRecord
    ensures r[1..] == Records(dump)
  {
    [IdentityRecord] + Records(dump)
  }
}

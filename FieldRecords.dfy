/**
 * One field's record as `pdftk dump_data_fields` describes it, and the merge
 * rule `dict_insert_append` that folds repeated attribute names into lists.
 */
module FieldRecords {
  import opened Strings

  /**
   * The value stored under one attribute name: the string itself the first
   * time the name is seen, a list of all its strings once it recurs.
   */
  datatype FieldValue = Scalar(s: string) | Seq(items: seq<string>)

  /** A field record: attribute name to value. */
  type FieldRecord = map<string, FieldValue>

  /** The strings a value holds, in order. */
  function Values(v: FieldValue): seq<string>
  {
    match v
    case Scalar(s) => [s]
    case Seq(items) => items
  }

  /**
   * The record after `dict_insert_append(m, key, value)`: a fresh key stores
   * the string itself, a scalar becomes the two-element list [old, value], a
   * list gets `value` appended; every other entry is left as it was.
   */
  function Inserted(m: FieldRecord, key: string, value: string): (r: FieldRecord)
    ensures r.Keys == m.Keys + {key}
    ensures forall k :: k in m && k != key ==> r[k] == m[k]
    ensures key !in m ==> r[key] == Scalar(value)
    ensures key in m && m[key].Scalar? ==> r[key] == Seq([m[key].s, value])
    ensures key in m && m[key].Seq? ==> r[key] == Seq(m[key].items + [value])
    ensures Values(r[key]) == (if key in m then Values(m[key]) else []) + [value]
  {
    if key in m then
      match m[key]
      case Seq(items) => m[key := Seq(items + [value])]
      case Scalar(old_) => m[key := Seq([old_, value])]
    else
      m[key := Scalar(value)]
  }

  /** A field record that is updated in place, as the Python dict is. */
  class Record {
    var entries: FieldRecord

    constructor (initial: FieldRecord)
      ensures entries == initial
    {
      entries := initial;
    }

    /** `dict_insert_append(self, key, value)`. */
    method InsertAppend(key: string, value: string)
      modifies this
      ensures entries == Inserted(old(entries), key, value)
    {
      if key in entries {
        match entries[key]
        case Seq(items) =>
          entries := entries[key := Seq(items + [value])];
        case Scalar(s) =>
          entries := entries[key := Seq([s, value])];
      } else {
        entries := entries[key := Scalar(value)];
      }
    }
  }

  /** The unit test and the doctest of `dict_insert_append`, as a client of Record. */
  method DictInsertAppendExample()
  {
    var a := new Record(map["a" := Scalar("1"), "b" := Seq(["2", "3"])]);
    a.InsertAppend("a", "4");
    assert a.entries["a"] == Seq(["1", "4"]);
    a.InsertAppend("b", "5");
    assert a.entries["b"] == Seq(["2", "3", "5"]);
    a.InsertAppend("c", "6");
    assert a.entries["c"] == Scalar("6");
  }

  /** The record built by inserting `pairs` one after another into an empty dict. */
  function Merge(pairs: seq<(string, string)>): FieldRecord
    decreases |pairs|
  {
    if pairs == [] then map[]
    else
      var last := pairs[|pairs| - 1];
      Inserted(Merge(pairs[..|pairs| - 1]), last.0, last.1)
  }

  /** The values paired with `key` in `pairs`, in order of appearance. */
  function ValuesOf(pairs: seq<(string, string)>, key: string): seq<string>
    decreases |pairs|
  {
    if pairs == [] then []
    else
      var last := pairs[|pairs| - 1];
      ValuesOf(pairs[..|pairs| - 1], key) + (if last.0 == key then [last.1] else [])
  }

  /**
   * What the fold of `dict_insert_append` records under each key: the key is
   * present exactly when it occurs in `pairs`; its values are all the values
   * paired with it, in order of appearance; and it is stored as a scalar
   * exactly when it occurs once.
   */
  lemma {:induction false} MergeCollects(pairs: seq<(string, string)>, key: string)
    ensures key in Merge(pairs) <==> ValuesOf(pairs, key) != []
    ensures key in Merge(pairs) ==>
      && Values(Merge(pairs)[key]) == ValuesOf(pairs, key)
      && (Merge(pairs)[key].Scalar? <==> |ValuesOf(pairs, key)| == 1)
  {
    if pairs != [] {
      var init := pairs[..|pairs| - 1];
      var last := pairs[|pairs| - 1];
      MergeCollects(init, key);
      if last.0 == key && key in Merge(init) {
        var v := Merge(init)[key];
        assert |Values(v)| >= 1;
        assert v.Seq? ==> |v.items| >= 2;
      }
    }
  }

  /** The keys of `pairs` are pairwise different. */
  predicate DistinctKeys(pairs: seq<(string, string)>)
  {
    forall i, j :: 0 <= i < j < |pairs| ==> pairs[i].0 != pairs[j].0
  }

  /** With pairwise different keys, each key occurs with exactly its own value. */
  lemma {:induction false} ValuesOfDistinct(pairs: seq<(string, string)>, i: nat)
    requires DistinctKeys(pairs)
    requires i < |pairs|
    ensures ValuesOf(pairs, pairs[i].0) == [pairs[i].1]
  {
    var init := pairs[..|pairs| - 1];
    var last := pairs[|pairs| - 1];
    if i == |pairs| - 1 {
      assert ValuesOf(init, last.0) == [] by {
        AbsentKey(init, last.0);
      }
    } else {
      assert DistinctKeys(init);
      assert init[i] == pairs[i];
      ValuesOfDistinct(init, i);
    }
  }

  /** A key that no pair carries has no values. */
  lemma {:induction false} AbsentKey(pairs: seq<(string, string)>, key: string)
    requires forall i :: 0 <= i < |pairs| ==> pairs[i].0 != key
    ensures ValuesOf(pairs, key) == []
  {
    if pairs != [] {
      var init := pairs[..|pairs| - 1];
      assert forall i :: 0 <= i < |init| ==> init[i] == pairs[i];
      AbsentKey(init, key);
    }
  }

  /**
   * Without repeated keys, the fold is the direct key-to-value mapping: every
   * key holds its own value as a scalar, and no other key is present.
   */
  lemma MergeDistinct(pairs: seq<(string, string)>)
    requires DistinctKeys(pairs)
    ensures forall i :: 0 <= i < |pairs| ==>
      pairs[i].0 in Merge(pairs) && Merge(pairs)[pairs[i].0] == Scalar(pairs[i].1)
    ensures forall k :: k in Merge(pairs) ==> k in KeysOf(pairs)
  {
    forall i | 0 <= i < |pairs|
      ensures pairs[i].0 in Merge(pairs) && Merge(pairs)[pairs[i].0] == Scalar(pairs[i].1)
    {
      ValuesOfDistinct(pairs, i);
      MergeCollects(pairs, pairs[i].0);
    }
    forall k | k in Merge(pairs)
      ensures k in KeysOf(pairs)
    {
      MergeCollects(pairs, k);
      if k !in KeysOf(pairs) {
        AbsentKey(pairs, k);
      }
    }
  }

  /** The keys of `pairs`. */
  function KeysOf(pairs: seq<(string, string)>): set<string>
  {
    set i | 0 <= i < |pairs| :: pairs[i].0
  }

  /** A key seen twice, with `v1` and then `v2`, holds the list [v1, v2]. */
  lemma MergeTwice(pairs: seq<(string, string)>, key: string, v1: string, v2: string)
    requires ValuesOf(pairs, key) == [v1, v2]
    ensures key in Merge(pairs) && Merge(pairs)[key] == Seq([v1, v2])
  {
    MergeCollects(pairs, key);
  }

  const LineSeparator := "\r\n"
  const KeySeparator := ": "

  /**
   * The non-empty strings of `lines`: no empty string is kept, and every
   * other string is kept as often as it occurs.
   */
  function NonEmpty(lines: seq<string>): (r: seq<string>)
    ensures "" !in r
    ensures forall l :: l != "" ==> multiset(r)[l] == multiset(lines)[l]
  {
    if lines == [] then []
    else
      assert lines == [lines[0]] + lines[1..];
      (if lines[0] == "" then [] else [lines[0]]) + NonEmpty(lines[1..])
  }

  /** The filter keeps the order of the lines: it distributes over concatenation. */
  lemma {:induction false} NonEmptyAppend(a: seq<string>, b: seq<string>)
    decreases |a|
    ensures NonEmpty(a + b) == NonEmpty(a) + NonEmpty(b)
  {
    if a != [] {
      assert (a + b)[0] == a[0];
      assert (a + b)[1..] == a[1..] + b;
      NonEmptyAppend(a[1..], b);
    } else {
      assert a + b == b;
    }
  }

  /**
   * The `(key, value)` pairs of one block (line 103): every non-empty CRLF
   * line partitioned at its first ": ", keeping the parts before and after it.
   */
  function FieldLines(block: string): (r: seq<(string, string)>)
    ensures |r| == |NonEmpty(Split(block, LineSeparator))|
  {
    var lines := NonEmpty(Split(block, LineSeparator));
    seq(|lines|, k requires 0 <= k < |lines| =>
      var p := Partition(lines[k], KeySeparator); (p.0, p.2))
  }

  /**
   * Pair `k` of a block comes from its `k`-th non-empty line: split at the
   * line's first ": " when there is one, the whole line with an empty value
   * when there is none.
   */
  lemma FieldLine(block: string, k: nat)
    requires k < |FieldLines(block)|
    ensures var line := NonEmpty(Split(block, LineSeparator))[k];
      var p := FieldLines(block)[k];
      && line != ""
      && (Contains(line, KeySeparator) ==>
            && p.0 + KeySeparator + p.1 == line
            && forall j: nat :: j < |p.0| ==> !OccursAt(line, KeySeparator, j))
      && (!Contains(line, KeySeparator) ==> p == (line, ""))
  {
    var line := NonEmpty(Split(block, LineSeparator))[k];
    var q := Partition(line, KeySeparator);
    assert FieldLines(block)[k] == (q.0, q.2);
  }

  /** The record `row_to_dict(block)` returns. */
  function ParseBlock(block: string): FieldRecord
  {
    Merge(FieldLines(block))
  }

  /** `row_to_dict`: insert the block's pairs one by one into a fresh record. */
  method RowToDict(block: string) returns (d: FieldRecord)
    ensures d == ParseBlock(block)
  {
    var fieldEls := FieldLines(block);
    var newDict := new Record(map[]);
    for i := 0 to |fieldEls|
      invariant newDict.entries == Merge(fieldEls[..i])
    {
      assert fieldEls[..i + 1][..i] == fieldEls[..i];
      newDict.InsertAppend(fieldEls[i].0, fieldEls[i].1);
    }
    assert fieldEls[..|fieldEls|] == fieldEls;
    d := newDict.entries;
    assert d == Merge(fieldEls);
  }
}

/** Column names of the produced streams: the `||<id>` suffix that
    `update_postpended_id` gives argument and output columns (the time and
    metadata columns are never renamed), and the column selection of
    `raw_data_to_csv`, which drops the metadata columns unless asked not to. */
module Columns {
  import opened Wrappers
  import opened Text
  import opened Dicts
  import opened Calls

  /** What separates a column's original name from its id. */
  const Separator := "||"

  /** The columns `update_postpended_id` leaves alone. */
  const ProtectedColumns: seq<string> := ["relative_sec", "epoch_sec"] + MetadataColumns

  /** `update_column_id`: the name up to its first `||` (all of it when it
      has none), then `||`, then the id. The kept part is the first piece
      `split('||')` would give. */
  function UpdateColumnId(currentColName: string, id: string): (r: string)
    ensures r == Split(currentColName, Separator)[0] + Separator + id
    ensures !Contains(currentColName, Separator) ==> r == currentColName + Separator + id
    ensures EndsWith(r, Separator + id)
  {
    match Find(currentColName, Separator)
    case None => currentColName + Separator + id
    case Some(originalNameIndex) => currentColName[..originalNameIndex] + Separator + id
  }

  /** The text before the first `||` does not end in `|`. */
  lemma BeforeFirstSeparator(c: string, i: nat)
    requires Find(c, Separator) == Some(i) && i > 0
    ensures c[i - 1] != '|'
  {
    if c[i - 1] == '|' {
      assert c[i] == c[i..i + 2][0] == '|';
      assert c[i - 1..i + 1] == Separator;
      assert OccursAt(c, Separator, i - 1);
    }
  }

  /** The original name never ends in `|`, unless the whole name does and
      has no `||`. */
  lemma OriginalNameEnd(c: string)
    requires Contains(c, Separator) || !EndsWith(c, "|")
    ensures var base := Split(c, Separator)[0];
      base != [] ==> base[|base| - 1] != '|'
  {
    SplitFirst(c, Separator);
    if Find(c, Separator).Some? {
      var i := Find(c, Separator).value;
      if i > 0 {
        BeforeFirstSeparator(c, i);
      }
    } else if c != [] {
      assert c[|c| - 1..] == [c[|c| - 1]];
    }
  }

  /** A renamed column still starts with its original name, so the id can
      be replaced again. */
  lemma UpdateColumnIdKeepsName(c: string, id: string)
    requires Contains(c, Separator) || !EndsWith(c, "|")
    ensures Split(UpdateColumnId(c, id), Separator)[0] == Split(c, Separator)[0]
  {
    var base := Split(c, Separator)[0];
    OriginalNameEnd(c);
    FindAfterFreePrefix(base, Separator, id);
    SplitAtFirst(base, Separator, id);
  }

  /** Renaming twice is renaming once with the last id: the same id twice
      changes nothing more, and a second id replaces the first. */
  lemma UpdateColumnIdLastWins(c: string, id1: string, id2: string)
    requires Contains(c, Separator) || !EndsWith(c, "|")
    ensures UpdateColumnId(UpdateColumnId(c, id1), id2) == UpdateColumnId(c, id2)
    ensures UpdateColumnId(UpdateColumnId(c, id1), id1) == UpdateColumnId(c, id1)
  {
    UpdateColumnIdKeepsName(c, id1);
  }

  /** The exception: a name that ends in `|` and has no `||` loses that `|`
      on the second renaming. */
  lemma UpdateColumnIdTrailingBar()
    ensures UpdateColumnId("x|", "1") == "x|||1"
    ensures UpdateColumnId(UpdateColumnId("x|", "1"), "1") == "x||1"
  {
    assert "x|"[0..2] == "x|";
    assert Find("x|", Separator) == None;
    assert "x|" + Separator + "1" == "x|||1";
    assert !OccursAt("x|||1", Separator, 0) && OccursAt("x|||1", Separator, 1);
    assert Find("x|||1", Separator) == Some(1);
    assert "x|||1"[..1] == "x";
  }

  /** The pairs of `col_mapping`, in column order: every column that is not
      protected, with its renamed form. */
  function MappingPairs(columns: seq<string>, id: string): (ps: seq<(string, string)>)
    ensures |ps| <= |columns|
    ensures forall i :: 0 <= i < |ps| ==>
      ps[i].0 in columns && ps[i].0 !in ProtectedColumns && ps[i].1 == UpdateColumnId(ps[i].0, id)
    ensures forall c :: c in columns && c !in ProtectedColumns ==> c in Keys(ps)
  {
    if columns == [] then []
    else
      var rest := MappingPairs(columns[1..], id);
      var c := columns[0];
      if c in ProtectedColumns then rest
      else
        var ps := [(c, UpdateColumnId(c, id))] + rest;
        assert forall i :: 1 <= i < |ps| ==> ps[i] == rest[i - 1];
        KeysCons((c, UpdateColumnId(c, id)), rest);
        ps
  }

  /** `col_mapping` of `update_postpended_id`. */
  function ColumnMapping(columns: seq<string>, id: string): (m: Dict<string, string>)
    ensures |m| <= |columns| && DistinctKeys(m)
  {
    UpdateAllKeepsDistinct([], MappingPairs(columns, id));
    UpdateAll([], MappingPairs(columns, id))
  }

  /** Exactly the unprotected columns are mapped, each to its renamed form;
      `epoch_sec`, `relative_sec` and the metadata columns are never renamed. */
  lemma ColumnMappingGet(columns: seq<string>, id: string, c: string)
    ensures Get(ColumnMapping(columns, id), c) ==
      if c in columns && c !in ProtectedColumns then Some(UpdateColumnId(c, id)) else None
  {
    var ps := MappingPairs(columns, id);
    GetUpdateAllUniform([], ps, c, UpdateColumnId(c, id));
    if c in Keys(ps) {
      var i :| 0 <= i < |ps| && Keys(ps)[i] == c;
      assert ps[i].0 == c;
    }
  }

  /** The column list after `rename` with `col_mapping`. */
  function RenamedColumns(columns: seq<string>, id: string): (r: seq<string>)
    ensures |r| == |columns|
  {
    var mapping := ColumnMapping(columns, id);
    seq(|columns|, i requires 0 <= i < |columns| =>
      var m := Get(mapping, columns[i]); if m.Some? then m.value else columns[i])
  }

  /** Each column is renamed unless protected, in place. */
  lemma RenamedColumnsAt(columns: seq<string>, id: string, i: nat)
    requires i < |columns|
    ensures RenamedColumns(columns, id)[i] ==
      if columns[i] in ProtectedColumns then columns[i] else UpdateColumnId(columns[i], id)
  {
    ColumnMappingGet(columns, id, columns[i]);
  }

  /** The column list without the metadata columns, in order. */
  function WithoutMetadata(columns: seq<string>): (r: seq<string>)
    ensures |r| <= |columns|
    ensures forall c :: c in r <==> c in columns && c !in MetadataColumns
  {
    if columns == [] then []
    else if columns[0] in MetadataColumns then WithoutMetadata(columns[1..])
    else
      var rest := WithoutMetadata(columns[1..]);
      assert forall c :: c in columns <==> c == columns[0] || c in columns[1..];
      [columns[0]] + rest
  }

  /** `writeable_columns`: all columns with `include_metadata`, otherwise
      every column that is not a metadata column. */
  function WriteableColumns(columns: seq<string>, includeMetadata: bool): (r: seq<string>)
    ensures |r| <= |columns|
    ensures includeMetadata ==> r == columns
    ensures forall c :: c in r ==> c in columns
  {
    if includeMetadata then columns else WithoutMetadata(columns)
  }

  /** Which columns are written: with metadata all of them, otherwise
      exactly the non-metadata ones; the two time columns always are. */
  lemma WriteableColumnsMembers(columns: seq<string>, includeMetadata: bool, c: string)
    ensures c in WriteableColumns(columns, includeMetadata) <==>
      c in columns && (includeMetadata || c !in MetadataColumns)
    ensures c in columns && c in ["epoch_sec", "relative_sec"] ==> c in WriteableColumns(columns, includeMetadata)
  {
  }

  /** The filter keeps the columns' order: filtering a concatenation is
      concatenating the filtered parts. */
  lemma {:induction false} WithoutMetadataAppend(a: seq<string>, b: seq<string>)
    ensures WithoutMetadata(a + b) == WithoutMetadata(a) + WithoutMetadata(b)
    decreases |a|
  {
    if a == [] {
      assert a + b == b;
    } else {
      assert (a + b)[0] == a[0] && (a + b)[1..] == a[1..] + b;
      WithoutMetadataAppend(a[1..], b);
    }
  }

  /** Filtering twice is filtering once. */
  lemma {:induction false} WithoutMetadataIdempotent(columns: seq<string>)
    ensures WithoutMetadata(WithoutMetadata(columns)) == WithoutMetadata(columns)
    decreases |columns|
  {
    if columns != [] {
      WithoutMetadataIdempotent(columns[1..]);
      if columns[0] !in MetadataColumns {
        var rest := WithoutMetadata(columns[1..]);
        assert ([columns[0]] + rest)[1..] == rest;
      }
    }
  }
}

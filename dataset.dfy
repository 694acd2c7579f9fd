/** `load_data` after reading the table: keep the rows that were given a
    topic, and derive the text that is shown and searched for keywords. */
module Dataset {

  datatype Option<T> = None | Some(value: T)

  /** A row of the table as read: a missing cell is `None`. */
  datatype Row = Row(topic: Option<int>, opTitle: Option<string>, opText: Option<string>)

  /** A row that was kept, with its derived `combined_text` column. */
  datatype Record = Record(topic: int, opTitle: Option<string>, opText: Option<string>, combinedText: string)

  /** The topic label of documents that no topic claimed. */
  const Unassigned: int := -1

  /** What goes between the title and the body in `combined_text`. */
  const Separator: string := ". "

  /** `fillna('')` on a text cell. */
  function FillEmpty(v: Option<string>): (r: string)
    ensures v.Some? ==> r == v.value
    ensures v.None? ==> r == ""
  {
    if v.Some? then v.value else []
  }

  /** `combined_text`: the title (empty when missing), ". ", then the body
      (empty when missing). Cutting it after the title gives both parts back. */
  function CombinedText(title: Option<string>, text: Option<string>): (r: string)
    ensures |r| == |FillEmpty(title)| + |Separator| + |FillEmpty(text)|
    ensures r[..|FillEmpty(title)|] == FillEmpty(title)
    ensures r[|FillEmpty(title)|..|FillEmpty(title)| + |Separator|] == Separator
    ensures r[|FillEmpty(title)| + |Separator|..] == FillEmpty(text)
    ensures title.None? && text.None? ==> r == Separator
    ensures title.Some? && text.None? ==> r == title.value + Separator
  {
    var t, x := FillEmpty(title), FillEmpty(text);
    assert (t + Separator + x)[..|t|] == t;
    assert (t + Separator + x)[|t|..|t| + |Separator|] == Separator;
    assert (t + Separator + x)[|t| + |Separator|..] == x;
    t + Separator + x
  }

  /** The filter of `load_data`: the topic is present and is not -1. */
  predicate Keeps(row: Row) {
    row.topic.Some? && row.topic.value != Unassigned
  }

  /** A kept row with its `combined_text` added; the other columns stay. */
  function Derive(row: Row): (r: Record)
    requires Keeps(row)
    ensures r.topic == row.topic.value && r.topic != Unassigned
    ensures r.opTitle == row.opTitle && r.opText == row.opText
    ensures r.combinedText == CombinedText(row.opTitle, row.opText)
  {
    Record(row.topic.value, row.opTitle, row.opText, CombinedText(row.opTitle, row.opText))
  }

  /** `load_data` on the rows of the table. */
  function LoadData(rows: seq<Row>): (df: seq<Record>)
    ensures |df| <= |rows|
    ensures forall k :: 0 <= k < |df| ==> df[k].topic != Unassigned
  {
    if rows == [] then []
    else
      var last := rows[|rows| - 1];
      LoadData(rows[..|rows| - 1]) + (if Keeps(last) then [Derive(last)] else [])
  }

  /** The positions of the kept rows, in increasing order. */
  function KeptIndices(rows: seq<Row>): (r: seq<nat>)
    ensures forall k :: 0 <= k < |r| ==> r[k] < |rows| && Keeps(rows[r[k]])
    ensures forall k, l :: 0 <= k < l < |r| ==> r[k] < r[l]
    ensures forall i :: 0 <= i < |rows| && Keeps(rows[i]) ==> i in r
  {
    if rows == [] then []
    else
      var n := |rows| - 1;
      var p := KeptIndices(rows[..n]);
      assert forall i :: 0 <= i < n ==> rows[..n][i] == rows[i];
      p + (if Keeps(rows[n]) then [n] else [])
  }

  /** `load_data` keeps exactly the rows with a topic other than -1, in their
      original order, each with its `combined_text`. */
  lemma {:induction false} LoadDataSelects(rows: seq<Row>)
    ensures |LoadData(rows)| == |KeptIndices(rows)|
    ensures forall k :: 0 <= k < |LoadData(rows)| ==> LoadData(rows)[k] == Derive(rows[KeptIndices(rows)[k]])
  {
    if rows != [] {
      var n := |rows| - 1;
      var pre := rows[..n];
      LoadDataSelects(pre);
      assert forall i :: 0 <= i < n ==> pre[i] == rows[i];
    }
  }

  /** A record is in the filtered table exactly when some row of the input
      has a topic other than -1 and derives it. */
  lemma LoadDataKeeps(rows: seq<Row>, r: Record)
    ensures r in LoadData(rows) <==> exists i :: 0 <= i < |rows| && Keeps(rows[i]) && r == Derive(rows[i])
  {
    LoadDataSelects(rows);
    var df, ix := LoadData(rows), KeptIndices(rows);
    if r in df {
      var k :| 0 <= k < |df| && df[k] == r;
      assert Keeps(rows[ix[k]]) && r == Derive(rows[ix[k]]);
    }
    if exists i :: 0 <= i < |rows| && Keeps(rows[i]) && r == Derive(rows[i]) {
      var i :| 0 <= i < |rows| && Keeps(rows[i]) && r == Derive(rows[i]);
      assert i in ix;
      var k :| 0 <= k < |ix| && ix[k] == i;
      assert df[k] == r;
    }
  }
}

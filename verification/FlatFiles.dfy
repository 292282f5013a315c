/** The file system as its users see it: a map from names to byte strings. */
module FlatFiles {
  import opened Bits
  import opened OpenFiles
  import opened Directories

  datatype Row = Blank | Row(key: seq<byte>, content: seq<byte>)

  datatype Op =
    | Create(key: seq<byte>, size: nat)
    | Remove(key: seq<byte>)
    | Write(key: seq<byte>, position: nat, data: seq<byte>)

  /** What an operation does to the files, with no mention of sectors, bitmaps or tables. */
  ghost predicate FlatStep(m: map<seq<byte>, seq<byte>>, op: Op, m': map<seq<byte>, seq<byte>>) {
    match op
    case Create(key, size) =>
      if key in m || |m| >= NUM_DIR_ENTRIES then m' == m
      else key in m' && |m'[key]| == size && m' == m[key := m'[key]]
    case Remove(key) => m' == m - {key}
    case Write(key, position, data) =>
      if key !in m || Clip(|m[key]|, |data|, position) == 0 then m' == m
      else m' == m[key := Splice(m[key], position, data[..Clip(|m[key]|, |data|, position)])]
  }

  ghost predicate Unique(rows: seq<Row>) {
    forall i, j {:trigger rows[i].key, rows[j].key} ::
      0 <= i < j < |rows| && rows[i].Row? && rows[j].Row? ==> rows[i].key != rows[j].key
  }

  /** The rows of a table as a map. */
  function ViewOf(rows: seq<Row>): map<seq<byte>, seq<byte>> {
    if rows == [] then map[]
    else
      var m, r := ViewOf(rows[..|rows| - 1]), rows[|rows| - 1];
      if r.Blank? then m else m[r.key := r.content]
  }

  /** A name in the map has a row. */
  lemma {:induction false} RowOf(rows: seq<Row>, key: seq<byte>) returns (i: nat)
    requires key in ViewOf(rows)
    ensures i < |rows| && rows[i] == Row(key, ViewOf(rows)[key])
  {
    i := |rows| - 1;
    if rows[i].Blank? || rows[i].key != key {
      i := RowOf(rows[..i], key);
    }
  }

  /** A row with a name is in the map. */
  lemma {:induction false} RowIn(rows: seq<Row>, i: nat)
    requires Unique(rows) && i < |rows| && rows[i].Row?
    ensures rows[i].key in ViewOf(rows) && ViewOf(rows)[rows[i].key] == rows[i].content
  {
    var n := |rows| - 1;
    if i < n {
      assert rows[..n][i] == rows[i];
      RowIn(rows[..n], i);
    }
  }

  lemma {:induction false} NoRow(rows: seq<Row>, key: seq<byte>)
    requires forall i :: 0 <= i < |rows| && rows[i].Row? ==> rows[i].key != key
    ensures key !in ViewOf(rows)
  {
    if rows != [] { NoRow(rows[..|rows| - 1], key); }
  }

  /** There are as many names as rows in use. */
  lemma {:induction false} ViewCount(rows: seq<Row>)
    requires Unique(rows)
    ensures |ViewOf(rows)| <= |rows|
    ensures |ViewOf(rows)| < |rows| <==> exists i :: 0 <= i < |rows| && rows[i].Blank?
  {
    if rows != [] {
      var n := |rows| - 1;
      ViewCount(rows[..n]);
      if rows[n].Row? {
        NoRow(rows[..n], rows[n].key);
      }
      if i :| 0 <= i < |rows| && rows[i].Blank? && i != n {
        assert rows[..n][i].Blank?;
      }
    }
  }

  /** Filling a blank row adds a name. */
  lemma PutRow(rows: seq<Row>, k: nat, r: Row)
    requires k < |rows| && rows[k].Blank? && r.Row? && Unique(rows) && Unique(rows[k := r])
    ensures r.key !in ViewOf(rows)
    ensures ViewOf(rows[k := r]) == ViewOf(rows)[r.key := r.content]
  {
    var rows' := rows[k := r];
    RowIn(rows', k);
    forall key | key in ViewOf(rows)
      ensures key != r.key && key in ViewOf(rows') && ViewOf(rows')[key] == ViewOf(rows)[key]
    {
      var i := RowOf(rows, key);
      assert rows'[i] == rows[i] && rows'[k] == r;
      RowIn(rows', i);
    }
    forall key | key in ViewOf(rows') && key != r.key ensures key in ViewOf(rows) {
      var i := RowOf(rows', key);
      RowIn(rows, i);
    }
  }

  /** Blanking a row takes its name out. */
  lemma TakeRow(rows: seq<Row>, k: nat)
    requires k < |rows| && rows[k].Row? && Unique(rows)
    ensures ViewOf(rows[k := Blank]) == ViewOf(rows) - {rows[k].key}
  {
    assert rows[k := Blank][k := rows[k]] == rows;
    PutRow(rows[k := Blank], k, rows[k]);
  }

  /** Changing what a row holds changes one name's string. */
  lemma ChangeRow(rows: seq<Row>, k: nat, c: seq<byte>)
    requires k < |rows| && rows[k].Row? && Unique(rows)
    ensures rows[k].key in ViewOf(rows)
    ensures ViewOf(rows[k := Row(rows[k].key, c)]) == ViewOf(rows)[rows[k].key := c]
  {
    RowIn(rows, k);
    TakeRow(rows, k);
    assert rows[k := Blank][k := Row(rows[k].key, c)] == rows[k := Row(rows[k].key, c)];
    PutRow(rows[k := Blank], k, Row(rows[k].key, c));
  }

  /** Writing to a row is a write to the file of that name. */
  lemma WriteRow(rows: seq<Row>, k: nat, op: Op, c: seq<byte>)
    requires op.Write? && k < |rows| && rows[k].Row? && rows[k].key == op.key && Unique(rows)
    requires var old_, n := rows[k].content, Clip(|rows[k].content|, |op.data|, op.position);
             c == if n == 0 then old_ else Splice(old_, op.position, op.data[..n])
    ensures FlatStep(ViewOf(rows), op, ViewOf(rows[k := Row(op.key, c)]))
  {
    RowIn(rows, k);
    ChangeRow(rows, k, c);
  }
}

/**
 * ResultDatabaseCollector: runs one SQL query and keeps every row it
 * returns as a map from lower-cased column name to column value, each
 * behind an iterator that yields it once. The database is an oracle: the
 * query's column names, the rows it returned before any failure, and that
 * failure are parameters.
 */
module Database {
  import opened Wrappers
  import opened Exceptions
  import Text
  import Results

  /** One row as collect() stores it: later columns overwrite earlier ones with the same lower-cased name. */
  function RowSpec<V>(columns: seq<string>, values: seq<V>): map<string, V>
    requires |columns| == |values|
  {
    if |columns| == 0 then map[]
    else RowSpec(columns[..|columns| - 1], values[..|values| - 1])[Text.ToLower(columns[|columns| - 1]) := values[|values| - 1]]
  }

  /** A row holds exactly the lower-cased column names. */
  lemma {:induction false} RowSpecKeys<V>(columns: seq<string>, values: seq<V>, key: string)
    requires |columns| == |values|
    ensures key in RowSpec(columns, values) <==> exists i :: 0 <= i < |columns| && Text.ToLower(columns[i]) == key
  {
    if |columns| > 0 {
      var n := |columns| - 1;
      RowSpecKeys(columns[..n], values[..n], key);
      if exists i :: 0 <= i < |columns| && Text.ToLower(columns[i]) == key {
        var i :| 0 <= i < |columns| && Text.ToLower(columns[i]) == key;
        if i < n {
          assert columns[..n][i] == columns[i];
        }
      }
      if exists i :: 0 <= i < n && Text.ToLower(columns[..n][i]) == key {
        var i :| 0 <= i < n && Text.ToLower(columns[..n][i]) == key;
        assert columns[i] == columns[..n][i];
      }
    }
  }

  /** Under each name a row holds the value of the last column with that lower-cased name. */
  lemma {:induction false} RowSpecLastWins<V>(columns: seq<string>, values: seq<V>, i: nat)
    requires |columns| == |values| && i < |columns|
    requires forall j :: i < j < |columns| ==> Text.ToLower(columns[j]) != Text.ToLower(columns[i])
    ensures Text.ToLower(columns[i]) in RowSpec(columns, values)
    ensures RowSpec(columns, values)[Text.ToLower(columns[i])] == values[i]
  {
    var n := |columns| - 1;
    if i < n {
      forall j | i < j < n ensures Text.ToLower(columns[..n][j]) != Text.ToLower(columns[..n][i]) {
        assert columns[..n][j] == columns[j];
      }
      RowSpecLastWins(columns[..n], values[..n], i);
      assert columns[..n][i] == columns[i] && values[..n][i] == values[i];
    }
  }

  /** The column loop of collect(): `row.put(columnName(i).toLowerCase(), getObject(i))` for each column in turn. */
  method BuildRow<V>(columns: seq<string>, values: seq<V>) returns (row: map<string, V>)
    requires |columns| == |values|
    ensures row == RowSpec(columns, values)
  {
    row := map[];
    var i := 0;
    while i < |columns|
      invariant 0 <= i <= |columns|
      invariant row == RowSpec(columns[..i], values[..i])
    {
      assert columns[..i + 1][..i] == columns[..i] && values[..i + 1][..i] == values[..i];
      row := row[Text.ToLower(columns[i]) := values[i]];
      i := i + 1;
    }
    assert columns[..i] == columns && values[..i] == values;
  }

  /** The iterator collect() wraps around one row: hasNext() is true until next() has returned the row. */
  class RowIterator<V> {
    const row: map<string, V>
    var hasNext: bool

    constructor (row: map<string, V>)
      ensures this.row == row && hasNext
    {
      this.row := row;
      hasNext := true;
    }

    function HasNext(): bool
      reads this
    {
      hasNext
    }

    /** next(): the row, every time; afterwards hasNext() is false. */
    method Next() returns (r: map<string, V>)
      modifies this
      ensures r == row && !hasNext
    {
      hasNext := false;
      r := row;
    }

    /** remove() is not supported. */
    method Remove() returns (r: Throwable)
      ensures r == Unsupported()
    {
      r := Unsupported();
    }
  }

  class ResultDatabaseCollector<V> {
    const repo: Results.ResultRepository
    const sql: string
    /** The row iterators collected so far, in order. */
    var rows: seq<RowIterator<V>>

    constructor (repo: Results.ResultRepository, sql: string)
      ensures this.repo == repo && this.sql == sql && rows == []
    {
      this.repo := repo;
      this.sql := sql;
      rows := [];
    }

    /**
     * collect(): one fresh iterator per row returned, in row order,
     * appended to what earlier calls collected. `table` holds the rows the
     * result set produced before `fault`, if any, was thrown; those rows
     * stay collected.
     */
    method Collect(columns: seq<string>, table: seq<seq<V>>, fault: Option<Throwable>) returns (error: Option<Throwable>)
      requires forall k :: 0 <= k < |table| ==> |table[k]| == |columns|
      modifies this
      ensures error == fault
      ensures |rows| == |old(rows)| + |table| && rows[..|old(rows)|] == old(rows)
      ensures var added := rows[|old(rows)|..];
        forall k :: 0 <= k < |table| ==> fresh(added[k]) && added[k].row == RowSpec(columns, table[k]) && added[k].hasNext
    {
      ghost var added: seq<RowIterator<V>> := [];
      ghost var before := rows;
      var k := 0;
      while k < |table|
        invariant 0 <= k <= |table|
        invariant rows == before + added && |added| == k
        invariant forall m :: 0 <= m < k ==> fresh(added[m]) && added[m].row == RowSpec(columns, table[m]) && added[m].hasNext
      {
        var row := BuildRow(columns, table[k]);
        var it := new RowIterator(row);
        rows := rows + [it];
        added := added + [it];
        k := k + 1;
      }
      assert rows[|before|..] == added;
      error := fault;
    }

    /** getResult(): every row collected so far. */
    function GetResult(): seq<RowIterator<V>>
      reads this
    {
      rows
    }
  }

  /** A column looked up by its lower-cased name yields the value stored under it: "USER_ID" is read as "user_id". */
  lemma UpperCaseColumnLowered()
    ensures Text.ToLower("USER_ID") == "user_id"
  {
  }
}

/** db_tables/tables.go: a table's schema checks and its list of indexes.
    The reactive table (`R_Table`) is reduced to its stored rows and, for each
    index, the column position it is on. */
module DbTables {
  import opened Wrappers

  datatype ColType = StringType | IntType | BoolType | OtherType(name: string)

  datatype ColInfo = ColInfo(name: string, colType: ColType)

  /** The dynamic type of one value of a row. */
  datatype Value = StrValue(s: string) | IntValue(i: int) | BoolValue(b: bool) | OtherValue(goType: string)

  type Row = seq<Value>

  datatype TableError =
    | ArityMismatch(expected: nat, got: nat)
    | TypeMismatch(column: string, columnType: ColType)
    | Unhandled
    | IndexNotFound(column: string)

  /** The position of the first column called `name`, or -1. */
  function ColIndex(columns: seq<ColInfo>, name: string): (r: int)
    ensures -1 <= r < |columns|
    ensures r == -1 <==> forall i :: 0 <= i < |columns| ==> columns[i].name != name
    ensures r >= 0 ==> columns[r].name == name && forall j :: 0 <= j < r ==> columns[j].name != name
  {
    if columns == [] then -1
    else if columns[0].name == name then 0
    else
      var rest := ColIndex(columns[1..], name);
      if rest == -1 then -1 else rest + 1
  }

  /** A value is accepted by a String, Int or Bool column of its own kind;
      a column of any other type accepts nothing. */
  predicate Fits(t: ColType, v: Value) {
    match t
    case StringType => v.StrValue?
    case IntType => v.IntValue?
    case BoolType => v.BoolValue?
    case OtherType(_) => false
  }

  ghost predicate RowFits(columns: seq<ColInfo>, row: Row)
    requires |row| == |columns|
  {
    forall i :: 0 <= i < |columns| ==> Fits(columns[i].colType, row[i])
  }

  /** The panic raised for a value that does not fit its column. */
  function MisfitError(c: ColInfo): TableError {
    if c.colType.OtherType? then Unhandled else TypeMismatch(c.name, c.colType)
  }

  class Table {
    const name: string
    const columns: seq<ColInfo>
    var rows: seq<Row>
    var indexes: seq<int>

    constructor (name: string, columns: seq<ColInfo>)
      ensures this.name == name && this.columns == columns
      ensures rows == [] && indexes == []
    {
      this.name := name;
      this.columns := columns;
      rows := [];
      indexes := [];
    }

    /** The id the next inserted row gets: its position among the rows. */
    function NextRowId(): (id: nat)
      reads this
      ensures id == |rows|
    {
      |rows|
    }

    /** `Get_col_index`: the first column with this name, or -1. */
    method GetColIndex(colName: string) returns (r: int)
      ensures r == ColIndex(columns, colName)
    {
      var i := 0;
      while i < |columns|
        invariant 0 <= i <= |columns|
        invariant forall j :: 0 <= j < i ==> columns[j].name != colName
      {
        if columns[i].name == colName {
          return i;
        }
        i := i + 1;
      }
      r := -1;
    }

    method HasCol(colName: string) returns (b: bool)
      ensures b <==> exists i :: 0 <= i < |columns| && columns[i].name == colName
    {
      var i := 0;
      while i < |columns|
        invariant 0 <= i <= |columns|
        invariant forall j :: 0 <= j < i ==> columns[j].name != colName
      {
        if columns[i].name == colName {
          return true;
        }
        i := i + 1;
      }
      b := false;
    }

    /** True when some index is on the column position `Get_col_index` gives,
        which for an unknown name is -1. */
    method HasIndex(colName: string) returns (b: bool)
      ensures b <==> ColIndex(columns, colName) in indexes
    {
      var c := GetColIndex(colName);
      var i := 0;
      while i < |indexes|
        invariant 0 <= i <= |indexes|
        invariant forall j :: 0 <= j < i ==> indexes[j] != c
      {
        if indexes[i] == c {
          return true;
        }
        i := i + 1;
      }
      b := false;
    }

    /** `Get_index`: the position of the first index on the column; a panic when there is none. */
    method GetIndex(colName: string) returns (r: Result<nat, TableError>)
      ensures r.Err? <==> ColIndex(columns, colName) !in indexes
      ensures r.Err? ==> r.error == IndexNotFound(colName)
      ensures r.Ok? ==> r.value < |indexes| && indexes[r.value] == ColIndex(columns, colName)
                        && forall j :: 0 <= j < r.value ==> indexes[j] != ColIndex(columns, colName)
    {
      var c := GetColIndex(colName);
      var i := 0;
      while i < |indexes|
        invariant 0 <= i <= |indexes|
        invariant forall j :: 0 <= j < i ==> indexes[j] != c
      {
        if indexes[i] == c {
          return Ok(i);
        }
        i := i + 1;
      }
      r := Err(IndexNotFound(colName));
    }

    /** `Index_on`: the first existing index on the column, or a new one
        appended at the end; either way the column then has an index. */
    method IndexOn(colName: string) returns (pos: nat)
      modifies this
      ensures rows == old(rows)
      ensures ColIndex(columns, colName) in indexes
      ensures ColIndex(columns, colName) in old(indexes) ==>
                indexes == old(indexes) && pos < |indexes| && indexes[pos] == ColIndex(columns, colName)
                && forall j :: 0 <= j < pos ==> indexes[j] != ColIndex(columns, colName)
      ensures ColIndex(columns, colName) !in old(indexes) ==>
                indexes == old(indexes) + [ColIndex(columns, colName)] && pos == |old(indexes)|
    {
      var c := GetColIndex(colName);
      var i := 0;
      while i < |indexes|
        invariant 0 <= i <= |indexes|
        invariant forall j :: 0 <= j < i ==> indexes[j] != c
      {
        if indexes[i] == c {
          return i;
        }
        i := i + 1;
      }
      indexes := indexes + [c];
      pos := |indexes| - 1;
    }

    /** `validate_col_types`: checks the columns in order and panics at the
        first value whose kind differs from its column's type. */
    method ValidateColTypes(row: Row) returns (o: Outcome<TableError>)
      requires |row| == |columns|
      ensures o.Pass? <==> RowFits(columns, row)
      ensures o.Fail? ==> exists i :: 0 <= i < |columns| && !Fits(columns[i].colType, row[i])
                                      && o.error == MisfitError(columns[i])
                                      && forall j :: 0 <= j < i ==> Fits(columns[j].colType, row[j])
    {
      var i := 0;
      while i < |columns|
        invariant 0 <= i <= |columns|
        invariant forall j :: 0 <= j < i ==> Fits(columns[j].colType, row[j])
      {
        var ok := Fits(columns[i].colType, row[i]);
        if !ok {
          return Fail(MisfitError(columns[i]));
        }
        i := i + 1;
      }
      o := Pass;
    }

    /** Panics unless the row has one value per column, each of its column's
        type; otherwise the row is stored under the id `NextRowId()` had. */
    method Insert(row: Row) returns (o: Outcome<TableError>)
      modifies this
      ensures indexes == old(indexes)
      ensures o.Pass? <==> |row| == |columns| && RowFits(columns, row)
      ensures |row| != |columns| ==> o == Fail(ArityMismatch(|columns|, |row|))
      ensures o.Fail? ==> rows == old(rows)
      ensures o.Pass? ==> rows == old(rows) + [row] && rows[old(NextRowId())] == row
    {
      if |row| != |columns| {
        return Fail(ArityMismatch(|columns|, |row|));
      }
      o := ValidateColTypes(row);
      if o.Pass? {
        rows := rows + [row];
      }
    }
  }
}

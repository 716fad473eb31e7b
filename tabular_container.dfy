/**
 * `TabularData::Container`: a named table whose columns come from a
 * configuration, with a current sort that is read from and written to the
 * request parameters as a sort string (`name` for ascending, `-name` for
 * descending).
 */
module TabularData {
  import opened Wrappers

  datatype Direction = Asc | Desc

  /** The options a column is configured with; the container passes them through unread. */
  type ColumnConfig = map<string, string>

  /**
   * A column: its key, its name qualified by the table, its configuration and
   * the direction it is currently sorted in, if any.
   */
  datatype Column = Column(name: string, qualifiedName: string, config: ColumnConfig, sortDir: Option<Direction>)

  /** `column.sort(dir)`: the ordering the container keeps as its sort. */
  datatype SortOrder = SortOrder(column: Column, dir: Direction)

  /** A request parameter: a string, nil, or a nested hash. */
  datatype Value = Str(s: string) | Nil | Hash(entries: map<string, Value>)

  /** `"#{table_name}.#{name}"`. */
  function QualifiedName(tableName: string, name: string): string
  {
    tableName + "." + name
  }

  predicate StartsWithDash(s: string)
  {
    |s| > 0 && s[0] == '-'
  }

  /**
   * The first half of `set_sort`: nil reads as the empty string, a leading
   * `-` selects descending order and is stripped (once), anything else is
   * ascending and used as the key unchanged.
   */
  function ParseSort(field: Option<string>): (r: (string, Direction))
    ensures field.None? ==> r == ("", Asc)
    ensures r.1 == Desc <==> field.Some? && StartsWithDash(field.value)
    ensures r.1 == Desc ==> field.value == "-" + r.0
    ensures r.1 == Asc && field.Some? ==> r.0 == field.value
  {
    var s := if field.None? then "" else field.value;
    if StartsWithDash(s) then (s[1..], Desc) else (s, Asc)
  }

  /**
   * `set_sort`'s result: the column under the parsed key ordered in the
   * parsed direction, or nil when no column has that key.
   */
  function SortFor(columnHash: map<string, Column>, field: Option<string>): (r: Option<SortOrder>)
    ensures r.None? <==> ParseSort(field).0 !in columnHash
    ensures r.Some? ==> r.value.column == columnHash[ParseSort(field).0] && r.value.dir == ParseSort(field).1
  {
    var (key, dir) := ParseSort(field);
    if key in columnHash then Some(SortOrder(columnHash[key], dir)) else None
  }

  /** The direction a column's sort link asks for: descending after ascending, ascending otherwise. */
  function Toggled(sortDir: Option<Direction>): Direction
  {
    if sortDir == Some(Asc) then Desc else Asc
  }

  /**
   * The sort string `sort_params` writes for a column: `-name` when it is
   * sorted ascending, `name` otherwise. `ParseSortString` states what the
   * string holds: read back, it gives the column's key and the toggled direction.
   */
  function SortString(col: Column): (r: string)
    ensures StartsWithDash(r) <==> col.sortDir == Some(Asc) || StartsWithDash(col.name)
    ensures |r| == |col.name| + (if col.sortDir == Some(Asc) then 1 else 0)
  {
    if col.sortDir == Some(Asc) then "-" + col.name else col.name
  }

  /**
   * Reading back the sort string of a column gives the column's key and the
   * toggled direction, as long as the key does not itself start with `-`
   * (or the column is sorted ascending, which adds a `-` in front of it).
   */
  lemma ParseSortString(col: Column)
    requires col.sortDir == Some(Asc) || !StartsWithDash(col.name)
    ensures ParseSort(Some(SortString(col))) == (col.name, Toggled(col.sortDir))
  {
    if col.sortDir == Some(Asc) {
      assert ("-" + col.name)[1..] == col.name;
    }
  }

  /**
   * A key that starts with `-` does not survive the trip when its column is
   * not sorted ascending: `-x` is read back as key `x`, descending.
   */
  lemma DashKeyMisread(col: Column)
    requires col.name == "-x" && col.sortDir != Some(Asc)
    ensures ParseSort(Some(SortString(col))) == ("x", Desc)
    ensures ParseSort(Some(SortString(col))) != (col.name, Toggled(col.sortDir))
  {
    assert SortString(col) == "-x";
    assert "-x"[1..] == "x";
  }

  /**
   * `params.permit(tables: {name => [:sort]})` followed by the lookups of
   * `set_state_from_params`: None when the table has no `sort` key (or the
   * path to it is not a chain of hashes, or the value is not a scalar),
   * otherwise the string or nil found there.
   */
  function PermittedSort(params: map<string, Value>, table: string): (r: Option<Option<string>>)
    ensures r.Some? <==>
      "tables" in params && params["tables"].Hash? && table in params["tables"].entries &&
      params["tables"].entries[table].Hash? && "sort" in params["tables"].entries[table].entries &&
      !params["tables"].entries[table].entries["sort"].Hash?
    ensures r.Some? && r.value.Some? ==> params["tables"].entries[table].entries["sort"] == Str(r.value.value)
    ensures r.Some? && r.value.None? ==> params["tables"].entries[table].entries["sort"] == Nil
  {
    if "tables" in params && params["tables"].Hash? && table in params["tables"].entries then
      var t := params["tables"].entries[table];
      if t.Hash? && "sort" in t.entries then
        match t.entries["sort"]
        case Str(s) => Some(Some(s))
        case Nil => Some(None)
        case Hash(_) => None
      else None
    else None
  }

  /**
   * `params.deep_merge(tables: {table => {sort: s}})`: the one hash path is
   * merged into the parameters, every hash along it keeping its other keys,
   * and a non-hash value on the path replaced by a hash.
   */
  function MergeSort(params: map<string, Value>, table: string, s: string): (r: map<string, Value>)
    ensures PermittedSort(r, table) == Some(Some(s))
    ensures r.Keys == params.Keys + {"tables"}
    ensures forall k :: k in params && k != "tables" ==> r[k] == params[k]
    ensures forall t :: "tables" in params && params["tables"].Hash? && t in params["tables"].entries && t != table ==>
      t in r["tables"].entries && r["tables"].entries[t] == params["tables"].entries[t]
    ensures ("tables" in params && params["tables"].Hash? && table in params["tables"].entries &&
             params["tables"].entries[table].Hash?) ==>
      forall k :: k in params["tables"].entries[table].entries && k != "sort" ==>
        k in r["tables"].entries[table].entries &&
        r["tables"].entries[table].entries[k] == params["tables"].entries[table].entries[k]
  {
    var tables := if "tables" in params && params["tables"].Hash? then params["tables"].entries else map[];
    var entry := if table in tables && tables[table].Hash? then tables[table].entries else map[];
    params["tables" := Hash(tables[table := Hash(entry["sort" := Str(s)])])]
  }

  /**
   * The columns built by `init_columns` from the configured (name, options)
   * pairs: one column per name, qualified by the table, a later pair under
   * the same name replacing an earlier one.
   */
  function ColumnHashOf(config: seq<(string, ColumnConfig)>, tableName: string): (r: map<string, Column>)
    ensures r.Keys == set p | p in config :: p.0
    ensures forall k :: k in r ==> r[k].name == k && r[k].qualifiedName == QualifiedName(tableName, k) && r[k].sortDir.None?
    decreases |config|
  {
    if config == [] then map[]
    else
      var last := config[|config| - 1];
      var prefix := config[..|config| - 1];
      var r := ColumnHashOf(prefix, tableName);
      assert config == prefix + [last];
      assert (set p | p in config :: p.0) == (set p | p in prefix :: p.0) + {last.0};
      r[last.0 := Column(last.0, QualifiedName(tableName, last.0), last.1, None)]
  }

  /** A column carries the options of the last pair configured under its name. */
  lemma {:induction false} ColumnHashOptions(config: seq<(string, ColumnConfig)>, tableName: string, i: nat)
    requires i < |config|
    requires forall j :: i < j < |config| ==> config[j].0 != config[i].0
    ensures ColumnHashOf(config, tableName)[config[i].0].config == config[i].1
    decreases |config|
  {
    var prefix := config[..|config| - 1];
    if i < |config| - 1 {
      ColumnHashOptions(prefix, tableName, i);
    }
  }

  /** `order.map { |name| @column_hash[name] }`: nil where the name has no column. */
  function ColumnsInOrder(columnHash: map<string, Column>, order: seq<string>): (r: seq<Option<Column>>)
    ensures |r| == |order|
    ensures forall i :: 0 <= i < |order| ==> (r[i].Some? <==> order[i] in columnHash)
    ensures forall i :: 0 <= i < |order| && order[i] in columnHash ==> r[i] == Some(columnHash[order[i]])
  {
    seq(|order|, i requires 0 <= i < |order| => if order[i] in columnHash then Some(columnHash[order[i]]) else None)
  }

  class Container {
    var name: string
    /** The table name of the container's query. */
    var tableName: string
    var columnHash: map<string, Column>
    var columns: seq<Option<Column>>
    var sort: Option<SortOrder>

    /** Every column is filed under its own key and qualified by the container's table. */
    predicate Valid()
      reads this
    {
      forall k :: k in columnHash ==> columnHash[k].name == k && columnHash[k].qualifiedName == QualifiedName(tableName, k)
    }

    /**
     * `Container.new(name, config)` over a query on the given table: the
     * columns from the configuration, then the configured sort.
     */
    constructor(name: string, tableName: string, columnConfigs: seq<(string, ColumnConfig)>, order: seq<string>, sortField: Option<string>)
      ensures Valid()
      ensures this.name == name && this.tableName == tableName
      ensures columnHash == ColumnHashOf(columnConfigs, tableName)
      ensures columns == ColumnsInOrder(columnHash, order)
      ensures sort == SortFor(columnHash, sortField)
    {
      this.name := name;
      this.tableName := tableName;
      columnHash := map[];
      columns := [];
      sort := None;
      new;
      InitColumns(columnConfigs, order);
      SetSort(sortField);
    }

    /**
     * `init_columns`: files a column under each configured name, then lists
     * the columns in the given order.
     */
    method InitColumns(config: seq<(string, ColumnConfig)>, order: seq<string>)
      modifies this
      ensures Valid()
      ensures columnHash == ColumnHashOf(config, tableName)
      ensures columns == ColumnsInOrder(columnHash, order)
      ensures name == old(name) && tableName == old(tableName) && sort == old(sort)
    {
      columnHash := map[];
      var i := 0;
      while i < |config|
        invariant 0 <= i <= |config|
        invariant columnHash == ColumnHashOf(config[..i], tableName)
        invariant name == old(name) && tableName == old(tableName) && sort == old(sort)
      {
        assert config[..i + 1][..i] == config[..i];
        var (key, options) := config[i];
        columnHash := columnHash[key := Column(key, QualifiedName(tableName, key), options, None)];
        i := i + 1;
      }
      assert config[..i] == config;
      columns := ColumnsInOrder(columnHash, order);
    }

    /** `set_sort`. */
    method SetSort(field: Option<string>)
      requires Valid()
      modifies this
      ensures Valid()
      ensures sort == SortFor(columnHash, field)
      ensures sort.Some? ==> sort.value.column.name == ParseSort(field).0
      ensures name == old(name) && tableName == old(tableName)
      ensures columnHash == old(columnHash) && columns == old(columns)
    {
      var (key, dir) := ParseSort(field);
      if key in columnHash {
        sort := Some(SortOrder(columnHash[key], dir));
      } else {
        sort := None;
      }
    }

    /** `set_state_from_params`: the sort changes only when the parameters carry one for this table. */
    method SetStateFromParams(params: map<string, Value>)
      requires Valid()
      modifies this
      ensures Valid()
      ensures PermittedSort(params, name).None? ==> sort == old(sort)
      ensures PermittedSort(params, name).Some? ==> sort == SortFor(columnHash, PermittedSort(params, name).value)
      ensures name == old(name) && tableName == old(tableName)
      ensures columnHash == old(columnHash) && columns == old(columns)
    {
      var found := PermittedSort(params, name);
      if found.Some? {
        SetSort(found.value);
      }
    }

    /** `sort_params`: the parameters with this table's sort set to the column's toggled sort string. */
    function SortParams(original: map<string, Value>, col: Column): (r: map<string, Value>)
      reads this
      ensures PermittedSort(r, name) == Some(Some(SortString(col)))
      ensures forall k :: k in original && k != "tables" ==> k in r && r[k] == original[k]
    {
      MergeSort(original, name, SortString(col))
    }
  }

  /**
   * Following a column's sort link: the parameters written by `sort_params`
   * and read back by `set_state_from_params` sort by the same column in the
   * toggled direction.
   */
  lemma SortLinkToggles(c: Container, original: map<string, Value>, col: Column)
    requires col.name in c.columnHash
    requires col.sortDir == Some(Asc) || !StartsWithDash(col.name)
    ensures var found := PermittedSort(c.SortParams(original, col), c.name);
      found.Some? &&
      SortFor(c.columnHash, found.value) == Some(SortOrder(c.columnHash[col.name], Toggled(col.sortDir)))
  {
    ParseSortString(col);
  }
}

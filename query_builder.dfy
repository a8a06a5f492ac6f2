/** `App\Services\QueryBuilder`: a fluent builder over one table that collects
    a column list and equality filters and hands them to the gateway's
    `select`. Its filters are a PHP associative array, modelled as a sequence
    of column/value pairs in insertion order with distinct columns. */
module Query {
  import opened Base
  import opened Gateway

  /** The columns of a filter array, in order. */
  function Keys(fs: Filters): (ks: seq<string>)
    ensures |ks| == |fs|
  {
    if fs == [] then [] else [fs[0].0] + Keys(fs[1..])
  }

  predicate Distinct(ks: seq<string>) {
    forall i, j :: 0 <= i < j < |ks| ==> ks[i] != ks[j]
  }

  /** `$filters[$column]`, if set. */
  function Lookup(fs: Filters, column: string): Option<string> {
    if fs == [] then None
    else if fs[0].0 == column then Some(fs[0].1)
    else Lookup(fs[1..], column)
  }

  /** `$filters[$column] = $value`. */
  function SetKey(fs: Filters, column: string, value: string): Filters {
    if fs == [] then [(column, value)]
    else if fs[0].0 == column then [(column, value)] + fs[1..]
    else [fs[0]] + SetKey(fs[1..], column, value)
  }

  /** A key is set exactly when it is one of the columns. */
  lemma {:induction false} LookupKeys(fs: Filters, column: string)
    ensures Lookup(fs, column).Some? <==> column in Keys(fs)
  {
    if fs != [] {
      LookupKeys(fs[1..], column);
    }
  }

  /** An existing key keeps its place, a new key is appended at the end. */
  lemma {:induction false} SetKeyKeys(fs: Filters, column: string, value: string)
    ensures Keys(SetKey(fs, column, value)) == if column in Keys(fs) then Keys(fs) else Keys(fs) + [column]
  {
    if fs != [] {
      SetKeyKeys(fs[1..], column, value);
      if fs[0].0 == column {
        assert Keys(SetKey(fs, column, value)) == [column] + Keys(fs[1..]);
      } else {
        assert Keys(SetKey(fs, column, value)) == [fs[0].0] + Keys(SetKey(fs[1..], column, value));
      }
    }
  }

  /** After the assignment the key holds the new value and every other key
      keeps its own. */
  lemma {:induction false} SetKeyLookup(fs: Filters, column: string, value: string, other: string)
    ensures Lookup(SetKey(fs, column, value), column) == Some(value)
    ensures other != column ==> Lookup(SetKey(fs, column, value), other) == Lookup(fs, other)
  {
    if fs != [] && fs[0].0 != column {
      SetKeyLookup(fs[1..], column, value, other);
    }
  }

  /** Assigning keeps the columns distinct, as PHP array keys are. */
  lemma SetKeyDistinct(fs: Filters, column: string, value: string)
    requires Distinct(Keys(fs))
    ensures Distinct(Keys(SetKey(fs, column, value)))
  {
    SetKeyKeys(fs, column, value);
  }

  class QueryBuilder {
    /** The gateway the builder hands its query to. */
    const service: Config
    const table: string
    var filters: Filters
    var selectColumns: string

    constructor (service: Config, table: string)
      ensures this.service == service && this.table == table
      ensures filters == [] && selectColumns == "*"
    {
      this.service := service;
      this.table := table;
      filters := [];
      selectColumns := "*";
    }

    /** `select($columns)`: returns the builder itself. */
    method Select(columns: string) returns (self: QueryBuilder)
      modifies this
      ensures self == this
      ensures selectColumns == columns && filters == old(filters)
    {
      selectColumns := columns;
      self := this;
    }

    /** `eq($column, $value)`: stores the filter as `eq.<value>`. */
    method Eq(column: string, value: string) returns (self: QueryBuilder)
      modifies this
      ensures self == this
      ensures filters == SetKey(old(filters), column, "eq." + value)
      ensures selectColumns == old(selectColumns)
    {
      filters := SetKey(filters, column, "eq." + value);
      self := this;
    }

    /** `single()`: one `select` call with the collected columns and filters. */
    method Single() returns (call: HttpCall<()>)
      ensures call == HttpCall(Get, SelectUrl(service, table, selectColumns, filters), DefaultHeaders(service.key), ())
    {
      call := Gateway.Select(service, table, selectColumns, filters);
    }
  }

  /** The filter `select` reads for a column is the stored value with its
      `eq.` stripped. */
  lemma {:induction false} DesignatedLookup(fs: Filters, column: string)
    ensures Lookup(Designated(fs), column) ==
      match Lookup(fs, column) { case None => None case Some(v) => Some(StripEq(v)) }
  {
    if fs != [] {
      assert Designated(fs)[1..] == Designated(fs[1..]);
      DesignatedLookup(fs[1..], column);
    }
  }

  /** A filter set by `eq` reaches the query as the raw value: the builder's
      `eq.` prefix is the one `select` strips, so a value that itself starts
      with `eq.` is kept whole. */
  lemma EqFilterDesignatesValue(fs: Filters, column: string, value: string)
    ensures Lookup(Designated(SetKey(fs, column, "eq." + value)), column) == Some(value)
  {
    SetKeyLookup(fs, column, "eq." + value, column);
    DesignatedLookup(SetKey(fs, column, "eq." + value), column);
    assert StripEq("eq." + value) == value;
  }
}

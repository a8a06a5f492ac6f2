/** The data gateway (`App\Services\SupabaseService`): how each call to the
    hosted Postgres REST API is addressed. The base URL is trimmed and loses its
    trailing slashes, every table lives under `/rest/v1/`, equality filters
    become `column=eq.<urlencoded value>` parameters, and the `Prefer` header
    is chosen from the service's default headers and the insert flag. The HTTP
    exchange itself is not modelled: a call is the value that would be sent. */
module Gateway {
  import opened Base
  import opened Text
  import opened UrlCodec

  /** `services.supabase.url` and `services.supabase.key`. */
  datatype Config = Config(url: string, key: string)

  datatype Verb = Get | Post | Patch | Delete

  /** One HTTP request as `request`/`select` would issue it. */
  datatype HttpCall<B> = HttpCall(verb: Verb, url: string, headers: map<string, string>, body: B)

  // ---------------------------------------------------------------------
  // URL of a table
  // ---------------------------------------------------------------------

  /** `rtrim(trim($url), '/')`. */
  function BaseUrl(configured: string): string {
    TrimEnd(PhpTrim(configured), IsSlash)
  }

  predicate IsSlash(c: char) { c == '/' }

  /** The base URL is the trimmed configured URL without its trailing
      slashes: it does not end in `/`, does not start with white space, and
      only slashes were cut off. */
  lemma BaseUrlShape(configured: string)
    ensures var r, t := BaseUrl(configured), PhpTrim(configured);
      (r == [] || r[|r| - 1] != '/') && (r == [] || !IsPhpSpace(r[0])) &&
      |r| <= |t| && t == r + Repeat('/', |t| - |r|)
  {
    var t := PhpTrim(configured);
    var r := BaseUrl(configured);
    var tail := Repeat('/', |t| - |r|);
    forall i | 0 <= i < |t| ensures t[i] == (r + tail)[i] {
      if i >= |r| {
        assert IsSlash(t[i]);
      }
    }
    assert t == r + tail;
    var u := TrimStart(configured, IsPhpSpace);
    assert r == t[..|r|] && t == u[..|t|];
    if r != [] {
      assert r[0] == u[0];
    }
  }

  /** `"{$base}/rest/v1/{$table}"`. */
  function TableUrl(cfg: Config, table: string): string {
    BaseUrl(cfg.url) + "/rest/v1/" + table
  }

  /** However many slashes the configured URL ends with, the request URL has
      exactly one between the host part and `rest`. */
  lemma BaseUrlIgnoresTrailingSlashes(url: string, k: nat)
    requires url == [] || !IsPhpSpace(url[|url| - 1])
    ensures BaseUrl(url + Repeat('/', k)) == BaseUrl(url)
  {
    var sl := Repeat('/', k);
    var u := TrimStart(url, IsPhpSpace);
    PhpTrimNoTrailingSpace(url);
    if k > 0 {
      var w := url + sl;
      assert w[|w| - 1] == '/';
      PhpTrimNoTrailingSpace(w);
      TrimStartAppend(url, sl, IsPhpSpace);
      TrimEndAppendAll(u, sl, IsSlash);
    } else {
      assert url + sl == url;
    }
  }

  /** PHP's `trim` of a text that does not end in white space only cuts
      its start. */
  lemma PhpTrimNoTrailingSpace(url: string)
    requires url == [] || !IsPhpSpace(url[|url| - 1])
    ensures PhpTrim(url) == TrimStart(url, IsPhpSpace)
  {
    var u := TrimStart(url, IsPhpSpace);
    if u != [] {
      TrimStartSuffix(url, IsPhpSpace);
      assert u[|u| - 1] == url[|url| - 1];
    }
  }

  /** A configured URL written with trailing slashes addresses the same
      tables as the one without them. */
  lemma TrailingSlashesIgnored(url: string, key: string, table: string, k: nat)
    requires url == [] || !IsPhpSpace(url[|url| - 1])
    ensures TableUrl(Config(url + Repeat('/', k), key), table) == TableUrl(Config(url, key), table)
  {
    BaseUrlIgnoresTrailingSlashes(url, k);
  }

  // ---------------------------------------------------------------------
  // Headers
  // ---------------------------------------------------------------------

  /** The service's default headers, set up in its constructor. */
  function DefaultHeaders(key: string): map<string, string> {
    map["apikey" := key, "Authorization" := "Bearer " + key,
        "Content-Type" := "application/json", "Prefer" := "return=representation"]
  }

  /** The headers `request` sends for a `$prefer` value: the defaults, with
      `Prefer` replaced unless the value is `return=minimal`. */
  function RequestHeaders(key: string, prefer: string): (h: map<string, string>)
    ensures h.Keys == DefaultHeaders(key).Keys
    ensures forall k :: k in h && k != "Prefer" ==> h[k] == DefaultHeaders(key)[k]
  {
    if prefer != "return=minimal" then DefaultHeaders(key)["Prefer" := prefer] else DefaultHeaders(key)
  }

  /** The `Prefer` header actually sent is `return=representation` for the
      value `return=minimal`, and the value itself otherwise. */
  lemma PreferSent(key: string, prefer: string)
    ensures RequestHeaders(key, prefer)["Prefer"] ==
      if prefer == "return=minimal" then "return=representation" else prefer
  {
  }

  /** `insert`'s choice from its `$returnRepresentation` flag. */
  function InsertPrefer(returnRepresentation: bool): string {
    if returnRepresentation then "return=representation" else "return=minimal"
  }

  /** Whatever flag `insert` receives, the headers sent are the defaults, so
      every insert asks for `return=representation`. */
  lemma InsertFlagIrrelevant(key: string, returnRepresentation: bool)
    ensures RequestHeaders(key, InsertPrefer(returnRepresentation)) == DefaultHeaders(key)
    ensures RequestHeaders(key, InsertPrefer(returnRepresentation))["Prefer"] == "return=representation"
  {
    var d := DefaultHeaders(key);
    if returnRepresentation {
      assert d["Prefer" := "return=representation"] == d;
    }
  }

  // ---------------------------------------------------------------------
  // request, insert, update, delete
  // ---------------------------------------------------------------------

  /** `request($method, $table, $params, $prefer)`. */
  function Request<B>(cfg: Config, verb: Verb, target: string, body: B, prefer: string): HttpCall<B> {
    HttpCall(verb, TableUrl(cfg, target), RequestHeaders(cfg.key, prefer), body)
  }

  function InsertCall<B>(cfg: Config, table: string, rows: B, returnRepresentation: bool): HttpCall<B> {
    Request(cfg, Post, table, rows, InsertPrefer(returnRepresentation))
  }

  /** `"{$table}?id=eq.{$id}"`: the id is interpolated as it is, not encoded. */
  function IdTarget(table: string, id: string): string {
    table + "?id=eq." + id
  }

  function UpdateCall<B>(cfg: Config, table: string, id: string, data: B): HttpCall<B> {
    Request(cfg, Patch, IdTarget(table, id), data, "return=minimal")
  }

  function DeleteCall(cfg: Config, table: string, id: string): HttpCall<()> {
    Request(cfg, Delete, IdTarget(table, id), (), "return=minimal")
  }

  /** An insert posts to the table's URL with the default headers. */
  lemma InsertAddressesTable<B>(cfg: Config, table: string, rows: B, flag: bool)
    ensures InsertCall(cfg, table, rows, flag) == HttpCall(Post, TableUrl(cfg, table), DefaultHeaders(cfg.key), rows)
  {
    InsertFlagIrrelevant(cfg.key, flag);
  }

  /** `update` and `delete` address `{table}?id=eq.{id}` under the base URL,
      with the default headers. */
  lemma UpdateDeleteAddressRow<B>(cfg: Config, table: string, id: string, data: B)
    ensures UpdateCall(cfg, table, id, data) ==
      HttpCall(Patch, TableUrl(cfg, table) + "?id=eq." + id, DefaultHeaders(cfg.key), data)
    ensures DeleteCall(cfg, table, id) ==
      HttpCall(Delete, TableUrl(cfg, table) + "?id=eq." + id, DefaultHeaders(cfg.key), ())
  {
    var url := TableUrl(cfg, table) + "?id=eq." + id;
    assert TableUrl(cfg, IdTarget(table, id)) == url;
    var h := RequestHeaders(cfg.key, "return=minimal");
    assert h == DefaultHeaders(cfg.key);
    assert UpdateCall(cfg, table, id, data) == HttpCall(Patch, url, h, data);
    assert DeleteCall(cfg, table, id) == HttpCall(Delete, url, h, ());
  }

  // ---------------------------------------------------------------------
  // The column `update` and `delete` filter on
  // ---------------------------------------------------------------------

  /** The column a target's row filter names: the text between the first `?`
      and the next `=`. */
  function TargetColumn(target: string): Option<string> {
    match QueryOf(target) {
      case None => None
      case Some(q) => Some(Split(q, '=')[0])
    }
  }

  /** The columns the `cocinero` migration creates; `timestamps()` adds the
      last two. */
  const CocineroColumns: seq<string> :=
    ["id_cocinero", "id_restaurante", "nombre", "correo_electronico", "password", "created_at", "updated_at"]

  /** As written, `update` and `delete` filter on a column named `id`, which
      the `cocinero` table does not have, so the token a cook's login stores
      is addressed to no row. */
  lemma IdTargetMissesCocineroKey(id: string)
    ensures TargetColumn(IdTarget("cocinero", id)) == Some("id")
    ensures "id" !in CocineroColumns
  {
    QueryOfAppend("cocinero", "?id=eq." + id);
    assert "cocinero" + "?id=eq." + id == "cocinero" + ("?id=eq." + id);
    assert ("?id=eq." + id)[1..] == "id" + ['='] + ("eq." + id);
    SplitAtSep("id", '=', "eq." + id);
  }

  /** The key column of each table the application updates or deletes
      from. */
  function KeyColumn(table: string): (c: string)
    ensures '=' !in c && '?' !in c
  {
    if table == "gerentes" then "id_gerente"
    else if table == "mesero" then "id_mesero"
    else if table == "cocinero" then "id_cocinero"
    else if table == "administrador_app" then "id_admin_app"
    else if table == "menu" then "id_menu"
    else "id"
  }

  /** The corrected row target: the filter names the table's own key. */
  function KeyTarget(table: string, id: string): string {
    table + "?" + KeyColumn(table) + "=eq." + id
  }

  /** A corrected target filters on the table's key, which for `cocinero`
      is one of its columns. */
  lemma KeyTargetNamesKey(table: string, id: string)
    requires '?' !in table
    ensures TargetColumn(KeyTarget(table, id)) == Some(KeyColumn(table))
    ensures table == "cocinero" ==> KeyColumn(table) in CocineroColumns
  {
    var key := KeyColumn(table);
    var rest := "?" + key + "=eq." + id;
    assert KeyTarget(table, id) == table + rest;
    QueryOfAppend(table, rest);
    assert rest[1..] == key + ['='] + ("eq." + id);
    SplitAtSep(key, '=', "eq." + id);
  }

  // ---------------------------------------------------------------------
  // select: equality filters in the query string
  // ---------------------------------------------------------------------

  /** A PHP associative array of filters, in insertion order. */
  type Filters = seq<(string, string)>

  /** Drops one leading `eq.` if present. */
  function StripEq(v: string): (r: string)
    ensures "eq." <= v ==> "eq." + r == v
    ensures !("eq." <= v) ==> r == v
  {
    if "eq." <= v then v[3..] else v
  }

  /** The query parameter one filter becomes. */
  function FilterParam(column: string, value: string): string {
    column + "=eq." + UrlEncode(StripEq(value))
  }

  function FilterParams(fs: Filters): (ps: seq<string>)
    ensures |ps| == |fs|
  {
    seq(|fs|, i requires 0 <= i < |fs| => FilterParam(fs[i].0, fs[i].1))
  }

  function QueryString(fs: Filters): string {
    Join(FilterParams(fs), '&')
  }

  /** The URL `select` builds; the column list does not take part in it. */
  function SelectUrl(cfg: Config, table: string, columns: string, fs: Filters): string {
    TableUrl(cfg, table) + (if fs == [] then "" else "?" + QueryString(fs))
  }

  /** `select($table, $select, $filters)`: builds one parameter per filter in a
      loop and issues a GET with the default headers. */
  method Select(cfg: Config, table: string, columns: string, fs: Filters) returns (call: HttpCall<()>)
    ensures call == HttpCall(Get, SelectUrl(cfg, table, columns, fs), DefaultHeaders(cfg.key), ())
  {
    var url := TableUrl(cfg, table);
    var queryParams: seq<string> := [];
    for i := 0 to |fs|
      invariant |queryParams| == i
      invariant forall k :: 0 <= k < i ==> queryParams[k] == FilterParam(fs[k].0, fs[k].1)
    {
      var column, value := fs[i].0, fs[i].1;
      if "eq." <= value {
        value := value[3..];
      }
      assert value == StripEq(fs[i].1);
      var param := column + "=eq." + UrlEncode(value);
      assert param == FilterParam(fs[i].0, fs[i].1);
      queryParams := queryParams + [param];
    }
    assert queryParams == FilterParams(fs);
    if queryParams != [] {
      url := url + "?" + Join(queryParams, '&');
    }
    call := HttpCall(Get, url, DefaultHeaders(cfg.key), ());
  }

  /** The column list never reaches the URL. */
  lemma SelectIgnoresColumns(cfg: Config, table: string, c1: string, c2: string, fs: Filters)
    ensures SelectUrl(cfg, table, c1, fs) == SelectUrl(cfg, table, c2, fs)
  {
  }

  /** A leading `eq.` is redundant exactly when the value does not itself
      start with `eq.`: only one prefix is ever stripped. */
  lemma EqPrefixRedundant(column: string, x: string)
    ensures FilterParam(column, "eq." + x) == FilterParam(column, x) <==> !("eq." <= x)
  {
    assert StripEq("eq." + x) == x;
    if FilterParam(column, "eq." + x) == FilterParam(column, x) {
      var n := |column + "=eq."|;
      assert UrlEncode(x) == FilterParam(column, "eq." + x)[n..];
      assert UrlEncode(StripEq(x)) == FilterParam(column, x)[n..];
      UrlEncodeInjective(x, StripEq(x));
    }
  }

  // ---------------------------------------------------------------------
  // Reading a query string back
  // ---------------------------------------------------------------------

  /** Column names are program constants without `&` or `=`. */
  predicate IsColumnName(c: string) { '&' !in c && '=' !in c }

  predicate ColumnsOk(fs: Filters) { forall i :: 0 <= i < |fs| ==> IsColumnName(fs[i].0) }

  /** The filter a parameter `column=eq.<encoded>` stands for. */
  function ParseParam(p: string): Option<(string, string)> {
    var parts := Split(p, '=');
    if |parts| != 2 || !("eq." <= parts[1]) then None
    else match Utf8Decode(UrlDecode(parts[1][3..])) {
      case None => None
      case Some(v) => Some((parts[0], v))
    }
  }

  function ParseParams(ps: seq<string>): Option<Filters> {
    if ps == [] then Some([])
    else match (ParseParam(ps[0]), ParseParams(ps[1..])) {
      case (Some(f), Some(rest)) => Some([f] + rest)
      case _ => None
    }
  }

  function ParseQuery(q: string): Option<Filters> {
    ParseParams(Split(q, '&'))
  }

  /** The filters a query designates: each value with its `eq.` stripped. */
  function Designated(fs: Filters): (r: Filters)
    ensures |r| == |fs|
  {
    seq(|fs|, i requires 0 <= i < |fs| => (fs[i].0, StripEq(fs[i].1)))
  }

  lemma ParamRoundTrip(column: string, value: string)
    requires IsColumnName(column)
    ensures ParseParam(FilterParam(column, value)) == Some((column, StripEq(value)))
    ensures '&' !in FilterParam(column, value)
  {
    var enc := UrlEncode(StripEq(value));
    UrlEncodeAlphabet(StripEq(value));
    var rest := "eq." + enc;
    assert FilterParam(column, value) == column + ['='] + rest;
    SplitAtSep(column, '=', rest);
    assert '=' !in rest;
    SplitNoSep(rest, '=');
    assert rest[3..] == enc;
    UrlRoundTrip(StripEq(value));
  }

  lemma {:induction false} ParamsRoundTrip(fs: Filters)
    requires ColumnsOk(fs)
    ensures ParseParams(FilterParams(fs)) == Some(Designated(fs))
  {
    if fs != [] {
      var ps, rest := FilterParams(fs), fs[1..];
      ParamRoundTrip(fs[0].0, fs[0].1);
      assert ps[0] == FilterParam(fs[0].0, fs[0].1);
      assert ps[1..] == FilterParams(rest);
      assert ColumnsOk(rest) by {
        forall i | 0 <= i < |rest| ensures IsColumnName(rest[i].0) {
          assert rest[i] == fs[i + 1];
        }
      }
      ParamsRoundTrip(rest);
      assert Designated(fs) == [(fs[0].0, StripEq(fs[0].1))] + Designated(rest);
    }
  }

  /** The query string `select` builds reads back as the designated filters,
      one per filter and in filter order. */
  lemma QueryRoundTrip(fs: Filters)
    requires fs != [] && ColumnsOk(fs)
    ensures ParseQuery(QueryString(fs)) == Some(Designated(fs))
  {
    forall i | 0 <= i < |FilterParams(fs)| ensures '&' !in FilterParams(fs)[i] {
      ParamRoundTrip(fs[i].0, fs[i].1);
    }
    SplitJoin(FilterParams(fs), '&');
    ParamsRoundTrip(fs);
  }

  /** The text after the first `?` of a URL, if any. */
  function QueryOf(url: string): Option<string> {
    if url == [] then None
    else if url[0] == '?' then Some(url[1..])
    else QueryOf(url[1..])
  }

  lemma {:induction false} QueryOfAppend(prefix: string, rest: string)
    requires '?' !in prefix
    ensures QueryOf(prefix + rest) == QueryOf(rest)
  {
    if prefix != [] {
      assert prefix[0] in prefix;
      assert (prefix + rest)[0] == prefix[0] && prefix[0] != '?';
      assert forall c :: c in prefix[1..] ==> c in prefix;
      assert (prefix + rest)[1..] == prefix[1..] + rest;
      QueryOfAppend(prefix[1..], rest);
    } else {
      assert prefix + rest == rest;
    }
  }

  /** The filters a URL asks for: none without a query string. */
  function UrlFilters(url: string): Option<Filters> {
    match QueryOf(url) {
      case None => Some([])
      case Some(q) => ParseQuery(q)
    }
  }

  /** A `select` URL carries a query string exactly when there are filters,
      and that query string designates the filters in order. */
  lemma SelectUrlRoundTrip(cfg: Config, table: string, columns: string, fs: Filters)
    requires '?' !in TableUrl(cfg, table) && ColumnsOk(fs)
    ensures (QueryOf(SelectUrl(cfg, table, columns, fs)).Some?) <==> fs != []
    ensures UrlFilters(SelectUrl(cfg, table, columns, fs)) == Some(Designated(fs))
  {
    var t := TableUrl(cfg, table);
    if fs == [] {
      assert SelectUrl(cfg, table, columns, fs) == t + [];
      QueryOfAppend(t, []);
    } else {
      QueryOfAppend(t, "?" + QueryString(fs));
      assert ("?" + QueryString(fs))[1..] == QueryString(fs);
      QueryRoundTrip(fs);
    }
  }

  // ---------------------------------------------------------------------
  // The menu URL a table's QR code encodes
  // ---------------------------------------------------------------------

  const MenuUrlPrefix := "http://localhost:3000/menu/"

  /** `getMenuUrl($qrCode)`. */
  function MenuUrl(qrCode: string): (r: string)
    ensures MenuUrlPrefix <= r
    ensures |r| == |MenuUrlPrefix| + |qrCode| && r[|MenuUrlPrefix|..] == qrCode
  {
    MenuUrlPrefix + qrCode
  }
}

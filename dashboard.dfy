/** `GerenteDashboardController`: the manager's dashboard. Its reads are
    scoped to one restaurant; `addMenu`, `updateMenu` and `deleteMenu` write
    the `menu` table. */
module Dashboard {
  import opened Base
  import opened Text
  import opened UrlCodec
  import opened Gateway
  import opened Store
  import opened Validation

  // ---------------------------------------------------------------------
  // getStats
  // ---------------------------------------------------------------------

  /** What the controller reads from the first row of an aggregate query:
      there may be no row, and the row may lack the field or hold null. The
      value itself comes from the remote service. */
  datatype Aggregate = NoRow | AggregateRow(field: Option<int>)

  /** `($rows[0] ?? [$field => 0])[$field] ?? 0`. */
  function AggregateOrZero(a: Aggregate): int {
    match a
    case NoRow => 0
    case AggregateRow(f) => match f { case None => 0 case Some(v) => v }
  }

  /** `count(array_filter($mesas, fn($m) => $m['estado'] === $estado))`. */
  function CountEstado(mesas: seq<Mesa>, estado: string): nat {
    |Filter(mesas, (m: Mesa) => m.estado == estado)|
  }

  datatype Stats = Stats(totalVentas: int, mesasDisponibles: nat, mesasOcupadas: nat, pedidosHoy: int)

  /** The statistics for a restaurant, given what the two aggregate queries
      return. */
  function GetStats(t: Tables, idRestaurante: nat, ventas: Aggregate, pedidos: Aggregate): Stats {
    var mesas := MesasOf(t, idRestaurante);
    Stats(AggregateOrZero(ventas), CountEstado(mesas, "Disponible"), CountEstado(mesas, "Ocupada"),
          AggregateOrZero(pedidos))
  }

  /** Two different statuses are never counted for the same table. */
  lemma CountsDisjoint(mesas: seq<Mesa>, a: string, b: string)
    requires a != b
    ensures CountEstado(mesas, a) + CountEstado(mesas, b) <= |mesas|
  {
    var estado := a;
    var p := (m: Mesa) => m.estado == estado;
    estado := b;
    var q := (m: Mesa) => m.estado == estado;
    FilterDisjointCount(mesas, p, q);
  }

  /** Free plus taken tables never exceed the restaurant's tables: a table in
      any other status is counted by neither. */
  lemma StatsCountsBounded(t: Tables, idRestaurante: nat, ventas: Aggregate, pedidos: Aggregate)
    ensures var s := GetStats(t, idRestaurante, ventas, pedidos);
      s.mesasDisponibles + s.mesasOcupadas <= |MesasOf(t, idRestaurante)|
  {
    CountsDisjoint(MesasOf(t, idRestaurante), "Disponible", "Ocupada");
  }

  /** When every table is free or taken, the two counts add up to the number
      of tables. */
  lemma StatsCountsCover(t: Tables, idRestaurante: nat, ventas: Aggregate, pedidos: Aggregate)
    requires forall i :: 0 <= i < |MesasOf(t, idRestaurante)| ==>
      MesasOf(t, idRestaurante)[i].estado == "Disponible" || MesasOf(t, idRestaurante)[i].estado == "Ocupada"
    ensures var s := GetStats(t, idRestaurante, ventas, pedidos);
      s.mesasDisponibles + s.mesasOcupadas == |MesasOf(t, idRestaurante)|
  {
    var estado := "Disponible";
    var p := (m: Mesa) => m.estado == estado;
    estado := "Ocupada";
    var q := (m: Mesa) => m.estado == estado;
    FilterCoverCount(MesasOf(t, idRestaurante), p, q);
  }

  /** A missing aggregate row, or a row without the field, reads as 0;
      otherwise the field's value is reported. */
  lemma StatsDefaults(t: Tables, idRestaurante: nat, ventas: Aggregate, pedidos: Aggregate)
    ensures var s := GetStats(t, idRestaurante, ventas, pedidos);
      (s.totalVentas == 0 <== ventas.NoRow? || ventas.field.None?) &&
      (s.pedidosHoy == 0 <== pedidos.NoRow? || pedidos.field.None?) &&
      (ventas.AggregateRow? && ventas.field.Some? ==> s.totalVentas == ventas.field.value) &&
      (pedidos.AggregateRow? && pedidos.field.Some? ==> s.pedidosHoy == pedidos.field.value)
  {
  }

  /** Tables added for a restaurant all `Disponible` raise its free count by
      their number and leave its taken count alone, as provisioning does. */
  lemma NewTablesAreFree(t: Tables, idRestaurante: nat, rows: seq<Mesa>, ventas: Aggregate, pedidos: Aggregate)
    requires forall i :: 0 <= i < |rows| ==> rows[i].idRestaurante == idRestaurante && rows[i].estado == "Disponible"
    ensures var before, after := GetStats(t, idRestaurante, ventas, pedidos),
                                 GetStats(InsertMesas(t, rows), idRestaurante, ventas, pedidos);
      after.mesasDisponibles == before.mesasDisponibles + |rows| &&
      after.mesasOcupadas == before.mesasOcupadas
  {
    var st := StampMesas(rows, t.nextId);
    assert forall i :: 0 <= i < |st| ==> st[i].idRestaurante == idRestaurante && st[i].estado == "Disponible";
    var mine := (m: Mesa) => m.idRestaurante == idRestaurante;
    FilterAppend(t.mesas, st, mine);
    FilterAll(st, mine);
    assert MesasOf(InsertMesas(t, rows), idRestaurante) == MesasOf(t, idRestaurante) + st;
    var estado := "Disponible";
    var free := (m: Mesa) => m.estado == estado;
    FilterAppend(MesasOf(t, idRestaurante), st, free);
    FilterAll(st, free);
    estado := "Ocupada";
    var taken := (m: Mesa) => m.estado == estado;
    FilterAppend(MesasOf(t, idRestaurante), st, taken);
    FilterNone(st, taken);
  }

  // ---------------------------------------------------------------------
  // The day's orders: the date filter (as written, and corrected)
  // ---------------------------------------------------------------------

  /** The filters `getStats` passes for the day's sales and orders; the
      date filter's value starts with `gte.`. */
  function StatsFilters(idRestaurante: string, day: string): Filters {
    [("id_restaurante", "eq." + idRestaurante), ("fecha_hora_pedido", "gte." + day + "T00:00:00")]
  }

  /** As written, the gateway prefixes every filter with `eq.`, so the query
      compares the order time for equality with the text
      `gte.<day>T00:00:00` instead of bounding it below. */
  lemma StatsDateFilterIsEquality(cfg: Config, columns: string, idRestaurante: string, day: string)
    requires '?' !in TableUrl(cfg, "pedidos")
    ensures UrlFilters(SelectUrl(cfg, "pedidos", columns, StatsFilters(idRestaurante, day))) ==
      Some([("id_restaurante", idRestaurante), ("fecha_hora_pedido", "gte." + day + "T00:00:00")])
  {
    StatsFiltersDesignated(idRestaurante, day);
    SelectUrlRoundTrip(cfg, "pedidos", columns, StatsFilters(idRestaurante, day));
  }

  /** The filters name plain columns, and the gateway reads the first as an
      equality on the restaurant id and the second as one on the text
      `gte.<day>T00:00:00`. */
  lemma StatsFiltersDesignated(idRestaurante: string, day: string)
    ensures ColumnsOk(StatsFilters(idRestaurante, day))
    ensures Designated(StatsFilters(idRestaurante, day)) ==
      [("id_restaurante", idRestaurante), ("fecha_hora_pedido", "gte." + day + "T00:00:00")]
  {
    var fs := StatsFilters(idRestaurante, day);
    assert IsColumnName(fs[0].0) && IsColumnName(fs[1].0);
    var bound := "gte." + day + "T00:00:00";
    assert bound[0] == 'g';
    assert StripEq(fs[0].1) == idRestaurante;
    assert StripEq(bound) == bound;
  }

  /** The orders an equality on the date selects. */
  function OrdersOfDayAsWritten(pedidos: seq<Pedido>, day: string): seq<Pedido> {
    Filter(pedidos, (p: Pedido) => p.fecha == "gte." + day + "T00:00:00")
  }

  /** A row condition with its operator. */
  datatype Cond = Equals(v: string) | AtLeast(v: string)

  /** The corrected filter parameter: the operator is part of the condition
      and the value is encoded after it. */
  function CondParam(column: string, c: Cond): string {
    column + "=" + CondRhs(c)
  }

  function CondRhs(c: Cond): string {
    match c
    case Equals(v) => "eq." + UrlEncode(v)
    case AtLeast(v) => "gte." + UrlEncode(v)
  }

  /** The condition the right-hand side of a parameter stands for:
      `eq.<encoded>` or `gte.<encoded>`. */
  function ParseCondValue(rhs: string): Option<Cond> {
    if "eq." <= rhs then
      match Utf8Decode(UrlDecode(rhs[3..])) {
        case None => None
        case Some(v) => Some(Equals(v))
      }
    else if "gte." <= rhs then
      match Utf8Decode(UrlDecode(rhs[4..])) {
        case None => None
        case Some(v) => Some(AtLeast(v))
      }
    else None
  }

  /** The column and condition a parameter `column=<condition>` stands
      for. */
  function ParseCond(p: string): Option<(string, Cond)> {
    var parts := Split(p, '=');
    if |parts| != 2 then None
    else match ParseCondValue(parts[1]) {
      case None => None
      case Some(c) => Some((parts[0], c))
    }
  }

  /** The encoded right-hand side of a condition reads back as it. */
  lemma CondValueRoundTrip(c: Cond)
    ensures '=' !in CondRhs(c) && ParseCondValue(CondRhs(c)) == Some(c)
  {
    UrlEncodeAlphabet(c.v);
    UrlRoundTrip(c.v);
    if c.AtLeast? {
      GteValueRoundTrip(c.v);
    } else {
      var rhs := CondRhs(c);
      assert rhs[3..] == UrlEncode(c.v);
    }
  }

  lemma GteValueRoundTrip(v: string)
    requires Utf8Decode(UrlDecode(UrlEncode(v))) == Some(v)
    ensures ParseCondValue("gte." + UrlEncode(v)) == Some(AtLeast(v))
  {
    var rhs := "gte." + UrlEncode(v);
    assert rhs[0] == 'g' && !("eq." <= rhs);
    assert rhs[4..] == UrlEncode(v);
  }

  /** Every corrected parameter reads back as its column and condition. */
  lemma CondRoundTrip(column: string, c: Cond)
    requires IsColumnName(column)
    ensures ParseCond(CondParam(column, c)) == Some((column, c))
  {
    var rhs := CondRhs(c);
    CondValueRoundTrip(c);
    assert CondParam(column, c) == column + ['='] + rhs;
    SplitAtSep(column, '=', rhs);
    SplitNoSep(rhs, '=');
  }

  /** The conditions `getStats` evidently means: the restaurant, and orders
      from the start of the day on. */
  function StatsConds(idRestaurante: string, day: string): seq<(string, Cond)> {
    [("id_restaurante", Equals(idRestaurante)), ("fecha_hora_pedido", AtLeast(day + "T00:00:00"))]
  }

  /** The corrected query string reads back as the intended conditions,
      the date one a lower bound. */
  lemma StatsCondsRoundTrip(idRestaurante: string, day: string)
    ensures var cs := StatsConds(idRestaurante, day);
      ParseCond(CondParam(cs[0].0, cs[0].1)) == Some(cs[0]) &&
      ParseCond(CondParam(cs[1].0, cs[1].1)) == Some(("fecha_hora_pedido", AtLeast(day + "T00:00:00")))
  {
    var cs := StatsConds(idRestaurante, day);
    assert IsColumnName(cs[0].0) && IsColumnName(cs[1].0);
    CondRoundTrip(cs[0].0, cs[0].1);
    CondRoundTrip(cs[1].0, cs[1].1);
  }

  /** Text order; for timestamps written in the same ISO 8601 shape it is
      time order. */
  predicate TextLe(a: string, b: string) {
    a == [] || (b != [] && (a[0] < b[0] || (a[0] == b[0] && TextLe(a[1..], b[1..]))))
  }

  /** A shared prefix does not change the text order. */
  lemma {:induction false} TextLePrefix(pre: string, a: string, b: string)
    ensures TextLe(pre + a, pre + b) == TextLe(a, b)
  {
    if pre != [] {
      assert (pre + a)[1..] == pre[1..] + a;
      assert (pre + b)[1..] == pre[1..] + b;
      TextLePrefix(pre[1..], a, b);
    } else {
      assert pre + a == a && pre + b == b;
    }
  }

  /** The orders the corrected lower bound selects. */
  function OrdersSince(pedidos: seq<Pedido>, since: string): seq<Pedido> {
    Filter(pedidos, (p: Pedido) => TextLe(since, p.fecha))
  }

  /** An order placed at half past noon of the day is not among the day's
      orders as written, and is with the corrected lower bound. */
  lemma NoonOrderMissedAsWritten(p: Pedido, day: string)
    requires p.fecha == day + "T12:30:00"
    ensures OrdersOfDayAsWritten([p], day) == []
    ensures OrdersSince([p], day + "T00:00:00") == [p]
  {
    assert |p.fecha| != |"gte." + day + "T00:00:00"|;
    assert day + "T00:00:00" == (day + "T") + "00:00:00";
    assert p.fecha == (day + "T") + "12:30:00";
    TextLePrefix(day + "T", "00:00:00", "12:30:00");
    assert TextLe("00:00:00", "12:30:00");
    assert [p][1..] == [];
  }

  // ---------------------------------------------------------------------
  // getMesas, getMenu, getEmpleados
  // ---------------------------------------------------------------------

  function GetMesas(t: Tables, idRestaurante: nat): seq<Mesa> {
    MesasOf(t, idRestaurante)
  }

  function GetMenu(t: Tables, idRestaurante: nat): seq<Dish> {
    MenuOf(t, idRestaurante)
  }

  datatype Empleados = Empleados(meseros: seq<Staff>, cocineros: seq<Staff>)

  /** Both staff lists come from the same restaurant id. */
  function GetEmpleados(t: Tables, idRestaurante: nat): Empleados {
    Empleados(StaffOf(t, Waiter, idRestaurante), StaffOf(t, Cook, idRestaurante))
  }

  /** The dashboard's lists hold exactly the rows of the restaurant. */
  lemma ReadsScoped(t: Tables, idRestaurante: nat)
    ensures forall m :: m in GetMesas(t, idRestaurante) <==> m in t.mesas && m.idRestaurante == idRestaurante
    ensures forall d :: d in GetMenu(t, idRestaurante) <==> d in t.menu && d.idRestaurante == idRestaurante
    ensures var e := GetEmpleados(t, idRestaurante);
      (forall s :: s in e.meseros <==> s in t.meseros && s.idRestaurante == idRestaurante) &&
      (forall s :: s in e.cocineros <==> s in t.cocineros && s.idRestaurante == idRestaurante)
  {
  }

  // ---------------------------------------------------------------------
  // getQRCodes
  // ---------------------------------------------------------------------

  const QrServerPrefix := "https://api.qrserver.com/v1/create-qr-code/?size=200x200&data="

  datatype QrEntry = QrEntry(idMesa: nat, numeroMesa: string, qrUrl: string)

  /** The image URL for a table's code. */
  function QrUrl(codigoQr: string): string {
    QrServerPrefix + UrlEncode(codigoQr)
  }

  /** One entry per table of the restaurant, in table order. */
  function GetQrCodes(t: Tables, idRestaurante: nat): (r: seq<QrEntry>)
    ensures |r| == |MesasOf(t, idRestaurante)|
  {
    var mesas := MesasOf(t, idRestaurante);
    seq(|mesas|, k requires 0 <= k < |mesas| => QrEntry(mesas[k].id, mesas[k].numero, QrUrl(mesas[k].codigoQr)))
  }

  /** Entry `k` describes table `k`: its id and number are copied, and the
      `data` parameter of its URL is a single parameter that decodes back to
      the table's code. */
  lemma QrCodesDescribeTables(t: Tables, idRestaurante: nat, k: nat)
    requires k < |GetQrCodes(t, idRestaurante)|
    ensures var e, m := GetQrCodes(t, idRestaurante)[k], MesasOf(t, idRestaurante)[k];
      var data := e.qrUrl[|QrServerPrefix|..];
      e.idMesa == m.id && e.numeroMesa == m.numero && QrServerPrefix <= e.qrUrl &&
      '&' !in data && '#' !in data &&
      Utf8Decode(UrlDecode(data)) == Some(m.codigoQr)
  {
    var m := MesasOf(t, idRestaurante)[k];
    var e := GetQrCodes(t, idRestaurante)[k];
    assert e.qrUrl == QrServerPrefix + UrlEncode(m.codigoQr);
    assert e.qrUrl[|QrServerPrefix|..] == UrlEncode(m.codigoQr);
    UrlEncodeAlphabet(m.codigoQr);
    UrlRoundTrip(m.codigoQr);
  }

  /** Different codes give different image URLs. */
  lemma QrUrlInjective(a: string, b: string)
    requires QrUrl(a) == QrUrl(b)
    ensures a == b
  {
    assert QrUrl(a)[|QrServerPrefix|..] == UrlEncode(a);
    assert QrUrl(b)[|QrServerPrefix|..] == UrlEncode(b);
    UrlEncodeInjective(a, b);
  }

  // ---------------------------------------------------------------------
  // addMenu, updateMenu, deleteMenu
  // ---------------------------------------------------------------------

  /** The body of `addMenu`. */
  datatype DishRequest = DishRequest(idRestaurante: Value, nombre: Value, descripcion: Value,
                                     precio: Value, categoria: Value)

  /** The body of `updateMenu`. */
  datatype DishEdit = DishEdit(nombre: Value, descripcion: Value, precio: Value, categoria: Value)

  /** The rules both handlers apply to a dish's fields. */
  predicate DishFieldsValid(nombre: Value, descripcion: Value, precio: Value, categoria: Value) {
    StringMax(nombre, 100) && NullableStringMax(descripcion, 255) &&
    NonNegativeAmount(precio) && StringMax(categoria, 50)
  }

  predicate AddMenuValid(req: DishRequest) {
    RequiredInteger(req.idRestaurante) &&
    DishFieldsValid(req.nombre, req.descripcion, req.precio, req.categoria)
  }

  predicate UpdateMenuValid(e: DishEdit) {
    DishFieldsValid(e.nombre, e.descripcion, e.precio, e.categoria)
  }

  /** A nullable column's value: null unless a string was sent. */
  function Descripcion(v: Value): Option<string> {
    if v.Str? then Some(v.s) else None
  }

  /** The row `addMenu` inserts (the id is the serial's). */
  function NewDish(req: DishRequest): Dish
    requires AddMenuValid(req)
  {
    Dish(0, IntegerValue(req.idRestaurante), req.nombre.s, Descripcion(req.descripcion),
         CentsOf(req.precio), req.categoria.s)
  }

  /** The columns `updateMenu` sends; an absent description is not sent. */
  function ChangeOf(e: DishEdit): DishChange
    requires UpdateMenuValid(e)
  {
    DishChange(e.nombre.s, if e.descripcion.Absent? then Keep else SetTo(Descripcion(e.descripcion)),
               CentsOf(e.precio), e.categoria.s)
  }

  datatype MenuReply =
    | Agregado(data: Dish)   // 201 'Platillo agregado correctamente'
    | Actualizado            // 200 'Platillo actualizado correctamente'
    | Eliminado              // 200 'Platillo eliminado correctamente'
    | MenuError              // 500; the validator's rejection is caught here too

  function MenuStatus(r: MenuReply): nat {
    match r
    case Agregado(_) => 201
    case Actualizado => 200
    case Eliminado => 200
    case MenuError => 500
  }

  function AddMenuSpec(t: Tables, req: DishRequest, ok: bool): (Tables, MenuReply) {
    if !AddMenuValid(req) || !ok then (t, MenuError)
    else (InsertDishes(t, [NewDish(req)]), Agregado(NewDish(req).(id := t.nextId)))
  }

  method AddMenu(db: Db, req: DishRequest, ok: bool) returns (reply: MenuReply)
    modifies db
    ensures (db.Snapshot(), reply) == AddMenuSpec(old(db.Snapshot()), req, ok)
  {
    if !AddMenuValid(req) {
      return MenuError;
    }
    var row := NewDish(req);
    var id := db.nextId;
    db.PostDishes([row], ok);
    if !ok {
      return MenuError;
    }
    reply := Agregado(row.(id := id));
  }

  /** `addMenu` answers 201 exactly when the body passes the rules and the
      insert is accepted; the created row is then appended to the menu and
      listed on the restaurant's menu. Otherwise it answers 500 and nothing
      changes. */
  lemma AddMenuOutcome(t: Tables, req: DishRequest, ok: bool)
    ensures var (t', r) := AddMenuSpec(t, req, ok);
      (MenuStatus(r) == 201 <==> AddMenuValid(req) && ok) &&
      (MenuStatus(r) != 201 ==> MenuStatus(r) == 500 && t' == t) &&
      (r.Agregado? ==> t'.menu == t.menu + [r.data] && r.data.id == t.nextId &&
                       MenuOf(t', r.data.idRestaurante) == MenuOf(t, r.data.idRestaurante) + [r.data])
  {
    var (t', r) := AddMenuSpec(t, req, ok);
    if r.Agregado? {
      assert StampDishes([NewDish(req)], t.nextId) == [r.data];
      var id := r.data.idRestaurante;
      FilterAppend(t.menu, [r.data], (d: Dish) => d.idRestaurante == id);
    }
  }

  /** The created row carries the submitted fields within the rules'
      bounds, and a price sent as two-decimal text is stored as those
      cents. */
  lemma AddedDishFields(t: Tables, req: DishRequest, ok: bool, cents: int)
    requires req.precio == Str(FormatCents(cents))
    ensures var r := AddMenuSpec(t, req, ok).1;
      r.Agregado? ==>
        r.data.nombre == req.nombre.s && |r.data.nombre| <= 100 && |r.data.categoria| <= 50 &&
        (r.data.descripcion.Some? ==> |r.data.descripcion.value| <= 255) &&
        r.data.precio == cents && cents >= 0
  {
    NumericCentsFormat(cents);
  }

  function UpdateMenuSpec(t: Tables, idMenu: nat, e: DishEdit, ok: bool): (Tables, MenuReply) {
    if !UpdateMenuValid(e) || !ok then (t, MenuError)
    else (UpdateDish(t, idMenu, ChangeOf(e)), Actualizado)
  }

  method UpdateMenu(db: Db, idMenu: nat, e: DishEdit, ok: bool) returns (reply: MenuReply)
    modifies db
    ensures (db.Snapshot(), reply) == UpdateMenuSpec(old(db.Snapshot()), idMenu, e, ok)
  {
    if !UpdateMenuValid(e) {
      return MenuError;
    }
    db.PatchDish(idMenu, ChangeOf(e), ok);
    if !ok {
      return MenuError;
    }
    reply := Actualizado;
  }

  /** `updateMenu` answers 200 exactly when the body passes the rules and
      the gateway accepts the update; a refused update answers 500 and
      changes nothing. */
  lemma UpdateMenuOutcome(t: Tables, idMenu: nat, e: DishEdit, ok: bool)
    ensures var (t', r) := UpdateMenuSpec(t, idMenu, e, ok);
      (MenuStatus(r) == 200 <==> UpdateMenuValid(e) && ok) &&
      (MenuStatus(r) != 200 ==> MenuStatus(r) == 500 && t' == t)
  {
  }

  /** An update changes only the dish with that id, and of it only the sent
      columns: its key, its restaurant and (when not sent) its description
      stay; every other row and every other table is unchanged. */
  lemma UpdateTouchesOnlyThatDish(t: Tables, idMenu: nat, e: DishEdit, ok: bool)
    ensures var t' := UpdateMenuSpec(t, idMenu, e, ok).0;
      t'.(menu := t.menu) == t && |t'.menu| == |t.menu| &&
      forall k :: 0 <= k < |t.menu| ==>
        if t.menu[k].id != idMenu || !UpdateMenuValid(e) || !ok then t'.menu[k] == t.menu[k]
        else t'.menu[k].id == idMenu && t'.menu[k].idRestaurante == t.menu[k].idRestaurante &&
             t'.menu[k].nombre == e.nombre.s && t'.menu[k].categoria == e.categoria.s &&
             t'.menu[k].precio == CentsOf(e.precio) &&
             t'.menu[k].descripcion == (if e.descripcion.Absent? then t.menu[k].descripcion
                                        else Descripcion(e.descripcion))
  {
  }

  /** An update of an id no dish has still answers 200, with nothing
      changed: there is no not-found answer. */
  lemma UpdateUnknownDishSucceeds(t: Tables, idMenu: nat, e: DishEdit)
    requires UpdateMenuValid(e)
    requires forall k :: 0 <= k < |t.menu| ==> t.menu[k].id != idMenu
    ensures UpdateMenuSpec(t, idMenu, e, true) == (t, Actualizado)
  {
    var t' := UpdateDish(t, idMenu, ChangeOf(e));
    assert t'.menu == t.menu;
    assert t' == t;
  }

  function DeleteMenuSpec(t: Tables, idMenu: nat, ok: bool): (Tables, MenuReply) {
    (if ok then DeleteDish(t, idMenu) else t, Eliminado)
  }

  method DeleteMenu(db: Db, idMenu: nat, ok: bool) returns (reply: MenuReply)
    modifies db
    ensures (db.Snapshot(), reply) == DeleteMenuSpec(old(db.Snapshot()), idMenu, ok)
  {
    db.DropDish(idMenu, ok);
    reply := Eliminado;
  }

  /** `deleteMenu` always answers 200, since the gateway's answer is
      ignored; when the delete is accepted exactly the dishes with that id
      are gone, the others stay in order, and no other table changes. */
  lemma DeleteRemovesExactly(t: Tables, idMenu: nat, ok: bool)
    ensures var (t', r) := DeleteMenuSpec(t, idMenu, ok);
      MenuStatus(r) == 200 && t'.(menu := t.menu) == t &&
      (!ok ==> t' == t) &&
      (ok ==> (forall d :: d in t'.menu <==> d in t.menu && d.id != idMenu)) &&
      (ok ==> t'.menu == Filter(t.menu, (d: Dish) => d.id != idMenu))
  {
  }

  /** Deleting a dish twice is deleting it once. */
  lemma DeleteIdempotent(t: Tables, idMenu: nat)
    ensures DeleteMenuSpec(DeleteMenuSpec(t, idMenu, true).0, idMenu, true) == DeleteMenuSpec(t, idMenu, true)
  {
    var p := (d: Dish) => d.id != idMenu;
    FilterIdempotent(t.menu, p);
  }
}

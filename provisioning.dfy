/** `SupabaseService::registerFullRestaurant`: creates a restaurant, its
    manager, its tables (each with its own QR token) and its menu, as a fixed
    sequence of writes. Each step that fails throws, which skips every later
    step; rows already written stay. */
module Provisioning {
  import opened Base
  import opened Text
  import opened Gateway
  import opened Store

  // ---------------------------------------------------------------------
  // Table numbers
  // ---------------------------------------------------------------------

  /** `str_pad($i, 3, '0', STR_PAD_LEFT)`: "001", "002", ... */
  function MesaNumber(i: nat): string {
    PadLeft(NatToDecimal(i), 3, '0')
  }

  /** A table number is a string of digits that reads back as the number. */
  lemma MesaNumberValue(i: nat)
    ensures AllDigits(MesaNumber(i)) && DigitsValue(MesaNumber(i)) == i
  {
    var d := NatToDecimal(i);
    LeadingZerosValue(|MesaNumber(i)| - |d|, d);
    DecimalRoundTrip(i);
  }

  /** Two tables never share a number. */
  lemma MesaNumberInjective(i: nat, j: nat)
    requires MesaNumber(i) == MesaNumber(j)
    ensures i == j
  {
    MesaNumberValue(i);
    MesaNumberValue(j);
  }

  lemma {:induction false} NatToDecimalLength(n: nat, k: nat)
    requires n < Pow10(k) && k >= 1
    ensures |NatToDecimal(n)| <= k
  {
    if n >= 10 {
      NatToDecimalLength(n / 10, k - 1);
    }
  }

  function Pow10(k: nat): nat {
    if k == 0 then 1 else 10 * Pow10(k - 1)
  }

  /** Tables 1 to 999 get exactly three characters; from 1000 on the number
      is longer, since padding never truncates. */
  lemma MesaNumberWidth(i: nat)
    ensures i < 1000 ==> |MesaNumber(i)| == 3
    ensures i >= 1000 ==> |MesaNumber(i)| > 3
  {
    if i < 1000 {
      assert Pow10(3) == 1000;
      NatToDecimalLength(i, 3);
    } else {
      var d := NatToDecimal(i);
      MesaNumberValue(i);
      if |d| <= 3 {
        DigitsBound(d);
        DecimalRoundTrip(i);
      }
    }
  }

  /** A string of at most three digits is worth less than 1000. */
  lemma DigitsBound(s: string)
    requires AllDigits(s) && |s| <= 3
    ensures DigitsValue(s) < 1000
  {
    if |s| > 0 {
      var p := s[..|s| - 1];
      assert AllDigits(p);
      if |p| > 0 {
        var q := p[..|p| - 1];
        assert AllDigits(q);
        if |q| > 0 {
          assert q[..|q| - 1] == [];
        }
      }
    }
  }

  lemma MesaNumberFirst()
    ensures MesaNumber(1) == "001" && MesaNumber(12) == "012"
  {
    assert NatToDecimal(1) == "1";
    assert NatToDecimal(12) == NatToDecimal(1) + ['2'];
  }

  // ---------------------------------------------------------------------
  // The table rows
  // ---------------------------------------------------------------------

  /** Row `i` of the tables: capacity 4, available, and the `i`-th UUID
      drawn. */
  function MesaRow(idRestaurante: nat, i: nat, uuid: nat -> string): Mesa {
    Mesa(0, idRestaurante, MesaNumber(i), uuid(i), 4, "Disponible")
  }

  /** The rows the `for ($i = 1; $i <= $numMesas; $i++)` loop collects. */
  function MesaRows(idRestaurante: nat, numMesas: int, uuid: nat -> string): (rows: seq<Mesa>)
    ensures |rows| == if numMesas > 0 then numMesas else 0
  {
    var n := if numMesas > 0 then numMesas else 0;
    seq(n, k requires 0 <= k < n => MesaRow(idRestaurante, k + 1, uuid))
  }

  method BuildMesaInserts(idRestaurante: nat, numMesas: int, uuid: nat -> string) returns (rows: seq<Mesa>)
    ensures rows == MesaRows(idRestaurante, numMesas, uuid)
  {
    rows := [];
    var i := 1;
    while i <= numMesas
      invariant 1 <= i <= (if numMesas >= 1 then numMesas + 1 else 1)
      invariant |rows| == i - 1
      invariant forall k :: 0 <= k < |rows| ==> rows[k] == MesaRow(idRestaurante, k + 1, uuid)
      decreases numMesas - i
    {
      var mesaQrCode := uuid(i);
      rows := rows + [Mesa(0, idRestaurante, MesaNumber(i), mesaQrCode, 4, "Disponible")];
      i := i + 1;
    }
    var expected := MesaRows(idRestaurante, numMesas, uuid);
    assert |rows| == |expected|;
    assert forall k :: 0 <= k < |rows| ==> rows[k] == expected[k];
  }

  /** With `n` requested tables there are `n` rows; row `i` is numbered
      `i` in three digits, seats 4, is available and belongs to the
      restaurant; when the UUIDs drawn are distinct, so are the tokens. */
  lemma MesaRowsShape(idRestaurante: nat, n: nat, uuid: nat -> string)
    requires 1 <= n <= 999
    ensures var rows := MesaRows(idRestaurante, n, uuid);
      |rows| == n &&
      forall k :: 0 <= k < n ==>
        rows[k].numero == MesaNumber(k + 1) && |rows[k].numero| == 3 &&
        DigitsValue(rows[k].numero) == k + 1 &&
        rows[k].capacidad == 4 && rows[k].estado == "Disponible" && rows[k].idRestaurante == idRestaurante
  {
    forall i | 1 <= i <= n
      ensures |MesaNumber(i)| == 3 && AllDigits(MesaNumber(i)) && DigitsValue(MesaNumber(i)) == i
    {
      MesaNumberWidth(i);
      MesaNumberValue(i);
    }
  }

  lemma MesaTokensDistinct(idRestaurante: nat, n: int, uuid: nat -> string)
    requires forall i, j :: i != j ==> uuid(i) != uuid(j)
    ensures var rows := MesaRows(idRestaurante, n, uuid);
      forall a, b :: 0 <= a < b < |rows| ==> rows[a].codigoQr != rows[b].codigoQr && rows[a].numero != rows[b].numero
  {
    var rows := MesaRows(idRestaurante, n, uuid);
    forall a, b | 0 <= a < b < |rows| ensures rows[a].numero != rows[b].numero {
      if rows[a].numero == rows[b].numero {
        MesaNumberInjective(a + 1, b + 1);
      }
    }
  }

  // ---------------------------------------------------------------------
  // The menu rows
  // ---------------------------------------------------------------------

  /** One submitted dish; a field is `None` when its key is absent. The price
      is in cents. */
  datatype MenuItemInput = MenuItemInput(nombre: Option<string>, descripcion: Option<string>,
                                         precio: Option<int>, categoria: Option<string>)

  /** Reading `nombre`, `precio` or `categoria` of an item that lacks it raises
      an error; `descripcion` falls back to null. */
  predicate Complete(item: MenuItemInput) {
    item.nombre.Some? && item.precio.Some? && item.categoria.Some?
  }

  function MenuRow(idRestaurante: nat, item: MenuItemInput): Dish
    requires Complete(item)
  {
    Dish(0, idRestaurante, item.nombre.value, item.descripcion, item.precio.value, item.categoria.value)
  }

  /** The rows the `foreach ($menuItems as $item)` loop collects, or `None`
      when it throws on an incomplete item. */
  function MenuRows(idRestaurante: nat, items: seq<MenuItemInput>): (r: Option<seq<Dish>>)
    ensures r.Some? <==> forall k :: 0 <= k < |items| ==> Complete(items[k])
    ensures r.Some? ==> |r.value| == |items|
    ensures r.Some? ==> forall k :: 0 <= k < |items| ==> r.value[k] == MenuRow(idRestaurante, items[k])
  {
    if forall k :: 0 <= k < |items| ==> Complete(items[k]) then
      Some(seq(|items|, k requires 0 <= k < |items| => MenuRow(idRestaurante, items[k])))
    else None
  }

  method BuildMenuInserts(idRestaurante: nat, items: seq<MenuItemInput>) returns (r: Option<seq<Dish>>)
    ensures r == MenuRows(idRestaurante, items)
  {
    var menuInserts: seq<Dish> := [];
    for k := 0 to |items|
      invariant |menuInserts| == k
      invariant forall j :: 0 <= j < k ==> Complete(items[j]) && menuInserts[j] == MenuRow(idRestaurante, items[j])
    {
      var item := items[k];
      if !Complete(item) {
        assert !Complete(items[k]);
        assert MenuRows(idRestaurante, items).None?;
        return None;
      }
      menuInserts := menuInserts + [Dish(0, idRestaurante, item.nombre.value, item.descripcion, item.precio.value, item.categoria.value)];
    }
    var expected := MenuRows(idRestaurante, items);
    assert expected.Some?;
    assert forall k :: 0 <= k < |items| ==> menuInserts[k] == expected.value[k];
    assert menuInserts == expected.value;
    r := Some(menuInserts);
  }

  /** One row per item, in order, tagged with the restaurant; an absent
      description is stored as null. */
  lemma MenuRowsShape(idRestaurante: nat, items: seq<MenuItemInput>)
    requires forall k :: 0 <= k < |items| ==> Complete(items[k])
    ensures var rows := MenuRows(idRestaurante, items).value;
      |rows| == |items| &&
      forall k :: 0 <= k < |items| ==>
        rows[k].idRestaurante == idRestaurante && Some(rows[k].nombre) == items[k].nombre &&
        rows[k].descripcion == items[k].descripcion && Some(rows[k].precio) == items[k].precio &&
        Some(rows[k].categoria) == items[k].categoria
  {
  }

  // ---------------------------------------------------------------------
  // The whole sequence of steps
  // ---------------------------------------------------------------------

  datatype RestauranteData = RestauranteData(nombre: string, ubicacion: string)

  datatype GerenteData = GerenteData(nombre: string, correo: string, password: Digest)

  /** Why provisioning threw. */
  datatype Failure =
    | RestauranteRejected
    | NoRestauranteId
    | GerenteRejected
    | MesasRejected
    | MenuItemIncomplete
    | MenuRejected
    | NoFirstMesa

  /** The array `registerFullRestaurant` returns (without the QR image). */
  datatype Registration = Registration(idRestaurante: nat, numMesasCreadas: nat, qrCodeUrl: string, qrCodeKey: string)

  datatype Provisioned = Registered(result: Registration) | Threw(failure: Failure)

  /** How the remote service answers each write: accepted or not, and whether
      the restaurant insert's representation carried the new row; `uuid(i)`
      is the UUID drawn for table `i`. */
  datatype Env = Env(restauranteOk: bool, restauranteEchoed: bool, gerenteOk: bool,
                     mesasOk: bool, menuOk: bool, uuid: nat -> string)

  /** The database after provisioning, and its outcome. */
  function Provision(t: Tables, r: RestauranteData, g: GerenteData, items: seq<MenuItemInput>,
                     numMesas: int, env: Env): (Tables, Provisioned)
  {
    if !env.restauranteOk then (t, Threw(RestauranteRejected))
    else
      var id := t.nextId;
      var t1 := InsertRestaurante(t, Restaurante(0, r.nombre, r.ubicacion));
      if !env.restauranteEchoed || id == 0 then (t1, Threw(NoRestauranteId))
      else if !env.gerenteOk then (t1, Threw(GerenteRejected))
      else
        var t2 := InsertStaff(t1, Manager, Staff(0, g.nombre, g.correo, g.password, id, None));
        var mesas := MesaRows(id, numMesas, env.uuid);
        if mesas != [] && !env.mesasOk then (t2, Threw(MesasRejected))
        else
          var t3 := if mesas != [] then InsertMesas(t2, mesas) else t2;
          match MenuRows(id, items) {
            case None => (t3, Threw(MenuItemIncomplete))
            case Some(menuRows) =>
              if menuRows != [] && !env.menuOk then (t3, Threw(MenuRejected))
              else
                var t4 := if menuRows != [] then InsertDishes(t3, menuRows) else t3;
                if mesas == [] then (t4, Threw(NoFirstMesa))
                else (t4, Registered(Registration(id, |mesas|, MenuUrl(mesas[0].codigoQr), mesas[0].codigoQr)))
          }
  }

  method RegisterFullRestaurant(db: Db, r: RestauranteData, g: GerenteData, items: seq<MenuItemInput>,
                                numMesas: int, env: Env) returns (out: Provisioned)
    modifies db
    ensures (db.Snapshot(), out) == Provision(old(db.Snapshot()), r, g, items, numMesas, env)
  {
    var created := db.PostRestaurante(Restaurante(0, r.nombre, r.ubicacion), env.restauranteOk);
    if created.None? {
      return Threw(RestauranteRejected);
    }
    var idRestaurante: Option<nat> := if env.restauranteEchoed then Some(created.value.id) else None;
    if idRestaurante.None? || idRestaurante.value == 0 {
      return Threw(NoRestauranteId);
    }
    var id := idRestaurante.value;
    var manager := db.PostStaff(Manager, Staff(0, g.nombre, g.correo, g.password, id, None), env.gerenteOk);
    if manager.None? {
      return Threw(GerenteRejected);
    }
    var mesasInserts := BuildMesaInserts(id, numMesas, env.uuid);
    if mesasInserts != [] {
      if !env.mesasOk {
        return Threw(MesasRejected);
      }
      db.PostMesas(mesasInserts, true);
    }
    var menuInserts := BuildMenuInserts(id, items);
    if menuInserts.None? {
      return Threw(MenuItemIncomplete);
    }
    if menuInserts.value != [] {
      if !env.menuOk {
        return Threw(MenuRejected);
      }
      db.PostDishes(menuInserts.value, true);
    }
    if mesasInserts == [] {
      return Threw(NoFirstMesa);
    }
    var primerMesaQrCode := mesasInserts[0].codigoQr;
    out := Registered(Registration(id, |mesasInserts|, MenuUrl(primerMesaQrCode), primerMesaQrCode));
  }

  // ---------------------------------------------------------------------
  // What provisioning guarantees
  // ---------------------------------------------------------------------

  /** Everything accepted: `n` tables are created, numbered from 001, and
      the result reports `n` tables and the first table's token and menu
      URL; one menu row per item is added. */
  lemma ProvisionSucceeds(t: Tables, r: RestauranteData, g: GerenteData, items: seq<MenuItemInput>,
                          n: int, env: Env)
    requires env.restauranteOk && env.restauranteEchoed && t.nextId != 0
    requires env.gerenteOk && env.mesasOk && (items != [] ==> env.menuOk) && n >= 1
    requires forall k :: 0 <= k < |items| ==> Complete(items[k])
    ensures var (t', out) := Provision(t, r, g, items, n, env);
      var id := t.nextId;
      out == Registered(Registration(id, n, MenuUrl(env.uuid(1)), env.uuid(1))) &&
      t'.restaurantes == t.restaurantes + [Restaurante(id, r.nombre, r.ubicacion)] &&
      t'.gerentes == t.gerentes + [Staff(id + 1, g.nombre, g.correo, g.password, id, None)] &&
      t'.mesas == t.mesas + StampMesas(MesaRows(id, n, env.uuid), id + 2) &&
      t'.menu == t.menu + StampDishes(MenuRows(id, items).value, id + 2 + n)
  {
    var id := t.nextId;
    var rows := MenuRows(id, items).value;
    if rows == [] {
      assert t.menu + StampDishes(rows, id + 2 + n) == t.menu;
    }
  }

  /** When the restaurant's id does not come back, only the restaurant row is
      written: no manager, table or menu row. */
  lemma ProvisionWithoutIdWritesOnlyRestaurant(t: Tables, r: RestauranteData, g: GerenteData,
                                               items: seq<MenuItemInput>, n: int, env: Env)
    requires env.restauranteOk && (!env.restauranteEchoed || t.nextId == 0)
    ensures var (t', out) := Provision(t, r, g, items, n, env);
      out == Threw(NoRestauranteId) &&
      t' == t.(restaurantes := t.restaurantes + [Restaurante(t.nextId, r.nombre, r.ubicacion)], nextId := t.nextId + 1)
  {
  }

  /** Nothing is rolled back and nothing unrelated is touched: whatever the
      outcome, every table keeps its earlier rows, and only the restaurant,
      manager, table and menu tables can grow. */
  lemma ProvisionKeepsEarlierRows(t: Tables, r: RestauranteData, g: GerenteData,
                                  items: seq<MenuItemInput>, n: int, env: Env)
    ensures var t' := Provision(t, r, g, items, n, env).0;
      t.restaurantes <= t'.restaurantes && t.gerentes <= t'.gerentes &&
      t.mesas <= t'.mesas && t.menu <= t'.menu &&
      t'.meseros == t.meseros && t'.cocineros == t.cocineros && t'.admins == t.admins &&
      t'.pedidos == t.pedidos && t'.detalles == t.detalles && t'.atenciones == t.atenciones
  {
    if env.restauranteOk {
      var id := t.nextId;
      var t1 := InsertRestaurante(t, Restaurante(0, r.nombre, r.ubicacion));
      assert KeepsRows(t, t1);
      if env.restauranteEchoed && id != 0 && env.gerenteOk {
        var t2 := InsertStaff(t1, Manager, Staff(0, g.nombre, g.correo, g.password, id, None));
        assert KeepsRows(t1, t2);
        var mesas := MesaRows(id, n, env.uuid);
        var t3 := if mesas != [] then InsertMesas(t2, mesas) else t2;
        assert KeepsRows(t2, t3);
        match MenuRows(id, items) {
          case None =>
          case Some(menuRows) =>
            var t4 := if menuRows != [] then InsertDishes(t3, menuRows) else t3;
            assert KeepsRows(t3, t4);
        }
      }
    }
  }

  /** Every table of `t` is a prefix of, or equal to, the same table of
      `t'`, and only the four written tables can grow. */
  predicate KeepsRows(t: Tables, t': Tables) {
    t.restaurantes <= t'.restaurantes && t.gerentes <= t'.gerentes &&
    t.mesas <= t'.mesas && t.menu <= t'.menu &&
    t'.meseros == t.meseros && t'.cocineros == t.cocineros && t'.admins == t.admins &&
    t'.pedidos == t.pedidos && t'.detalles == t.detalles && t'.atenciones == t.atenciones
  }

  /** The outcome is a registration exactly when every step is accepted, at
      least one table is requested and every item is complete; a failure
      names the first step that did not go through. */
  lemma ProvisionOutcome(t: Tables, r: RestauranteData, g: GerenteData,
                         items: seq<MenuItemInput>, n: int, env: Env)
    ensures var out := Provision(t, r, g, items, n, env).1;
      out.Registered? <==>
        (env.restauranteOk && env.restauranteEchoed && t.nextId != 0 && env.gerenteOk &&
         n >= 1 && env.mesasOk && (forall k :: 0 <= k < |items| ==> Complete(items[k])) &&
         (items != [] ==> env.menuOk))
    ensures var out := Provision(t, r, g, items, n, env).1;
      out == Threw(MesasRejected) ==> Provision(t, r, g, items, n, env).0.mesas == t.mesas && t.menu == Provision(t, r, g, items, n, env).0.menu
  {
    var id := t.nextId;
    var mesas := MesaRows(id, n, env.uuid);
    assert |mesas| == if n > 0 then n else 0;
  }

  /** Which step fails is decided in the order of the writes: each failure
      happens exactly when every earlier step went through and its own step
      did not. */
  lemma ProvisionFailureCause(t: Tables, r: RestauranteData, g: GerenteData,
                              items: seq<MenuItemInput>, n: int, env: Env)
    ensures var out := Provision(t, r, g, items, n, env).1;
      var idOk := env.restauranteOk && env.restauranteEchoed && t.nextId != 0;
      var mesasDone := idOk && env.gerenteOk && (n < 1 || env.mesasOk);
      var complete := forall k :: 0 <= k < |items| ==> Complete(items[k]);
      (out == Threw(RestauranteRejected) <==> !env.restauranteOk) &&
      (out == Threw(NoRestauranteId) <==> env.restauranteOk && (!env.restauranteEchoed || t.nextId == 0)) &&
      (out == Threw(GerenteRejected) <==> idOk && !env.gerenteOk) &&
      (out == Threw(MesasRejected) <==> idOk && env.gerenteOk && n >= 1 && !env.mesasOk) &&
      (out == Threw(MenuItemIncomplete) <==> mesasDone && !complete) &&
      (out == Threw(MenuRejected) <==> mesasDone && complete && items != [] && !env.menuOk) &&
      (out == Threw(NoFirstMesa) <==> mesasDone && complete && (items == [] || env.menuOk) && n < 1)
  {
    var mesas := MesaRows(t.nextId, n, env.uuid);
    assert mesas != [] <==> n >= 1;
  }

  /** A failure skips every later write: a refused restaurant writes
      nothing, a refused manager no manager, table or dish, refused tables
      no table or dish, and a failing menu no dish. */
  lemma ProvisionFailureFrames(t: Tables, r: RestauranteData, g: GerenteData,
                               items: seq<MenuItemInput>, n: int, env: Env)
    ensures var (t', out) := Provision(t, r, g, items, n, env);
      (out == Threw(RestauranteRejected) ==> t' == t) &&
      (out == Threw(NoRestauranteId) || out == Threw(GerenteRejected) ==>
        t'.gerentes == t.gerentes && t'.mesas == t.mesas && t'.menu == t.menu) &&
      (out == Threw(MesasRejected) ==> t'.mesas == t.mesas && t'.menu == t.menu) &&
      (out == Threw(MenuItemIncomplete) || out == Threw(MenuRejected) ==> t'.menu == t.menu)
  {
    var mesas := MesaRows(t.nextId, n, env.uuid);
    assert mesas != [] <==> n >= 1;
  }

  /** Zero tables requested: the restaurant, its manager and its menu are
      written, and then reading the first table's token fails. */
  lemma ProvisionZeroTables(t: Tables, r: RestauranteData, g: GerenteData,
                            items: seq<MenuItemInput>, n: int, env: Env)
    requires n <= 0 && env.restauranteOk && env.restauranteEchoed && t.nextId != 0 && env.gerenteOk && env.menuOk
    requires forall k :: 0 <= k < |items| ==> Complete(items[k])
    ensures var (t', out) := Provision(t, r, g, items, n, env);
      out == Threw(NoFirstMesa) && t'.mesas == t.mesas &&
      |t'.restaurantes| == |t.restaurantes| + 1 && |t'.gerentes| == |t.gerentes| + 1 &&
      |t'.menu| == |t.menu| + |items|
  {
    assert MesaRows(t.nextId, n, env.uuid) == [];
  }
}

/** The hosted database as the controllers see it: one sequence of records per
    table, in insertion order, and a serial that hands out row ids. Reads are
    equality filters over a table; writes append rows, or change or drop the
    rows whose key equals a given id. Whether the remote service accepts a
    write is not known in advance, so every write takes an `ok` flag; a
    refused write changes nothing. */
module Store {
  import opened Base

  // ---------------------------------------------------------------------
  // Password digests
  // ---------------------------------------------------------------------

  /** A bcrypt digest. The hash function is not modelled: a digest records
      the text it was made from, which is all `Hash::check` relies on. */
  datatype Digest = Bcrypt(secret: string)

  /** `bcrypt($p)` / `Hash::make($p)`. */
  function HashOf(plain: string): Digest { Bcrypt(plain) }

  /** `Hash::check($plain, $digest)`. */
  predicate HashCheck(plain: string, d: Digest) { d == HashOf(plain) }

  // ---------------------------------------------------------------------
  // Rows
  // ---------------------------------------------------------------------

  /** `restaurantes` (key `id_restaurante`). */
  datatype Restaurante = Restaurante(id: nat, nombre: string, ubicacion: string)

  /** A row of `gerentes`, `mesero` or `cocinero` (keys `id_gerente`,
      `id_mesero`, `id_cocinero`). */
  datatype Staff = Staff(id: nat, nombre: string, correo: string, password: Digest,
                         idRestaurante: int, rememberToken: Option<string>)

  /** `administrador_app` (key `id_admin_app`). */
  datatype Admin = Admin(id: nat, nombre: string, correo: string, password: Digest,
                         departamento: string, rememberToken: Option<string>)

  /** `mesa` (key `id_mesa`). */
  datatype Mesa = Mesa(id: nat, idRestaurante: nat, numero: string, codigoQr: string,
                       capacidad: nat, estado: string)

  /** `menu` (key `id_menu`); the price is in cents. */
  datatype Dish = Dish(id: nat, idRestaurante: int, nombre: string, descripcion: Option<string>,
                       precio: int, categoria: string)

  /** `pedidos` (key `id_pedido`). Its `numero_mesa` column receives the
      table's `id_mesa`. */
  datatype Pedido = Pedido(id: nat, idRestaurante: nat, fecha: string, estado: string,
                           total: int, numeroMesa: nat)

  /** `detalle_pedido`. */
  datatype Detalle = Detalle(id: nat, idPedido: nat, idMenu: nat, cantidad: int, precioUnitario: int)

  /** `atencion`: a request for the staff of a table. */
  datatype Atencion = Atencion(id: nat, tipo: string, fecha: string, estado: string, idMesa: nat,
                               notas: Option<string>, idMesero: Option<nat>)

  /** The three staff tables. */
  datatype Role = Manager | Waiter | Cook

  /** The table a staff role is stored in. */
  function TableOf(role: Role): string {
    match role
    case Manager => "gerentes"
    case Waiter => "mesero"
    case Cook => "cocinero"
  }

  // ---------------------------------------------------------------------
  // The whole database as a value
  // ---------------------------------------------------------------------

  datatype Tables = Tables(
    restaurantes: seq<Restaurante>,
    gerentes: seq<Staff>,
    meseros: seq<Staff>,
    cocineros: seq<Staff>,
    admins: seq<Admin>,
    mesas: seq<Mesa>,
    menu: seq<Dish>,
    pedidos: seq<Pedido>,
    detalles: seq<Detalle>,
    atenciones: seq<Atencion>,
    nextId: nat)

  function Staffs(t: Tables, role: Role): seq<Staff> {
    match role
    case Manager => t.gerentes
    case Waiter => t.meseros
    case Cook => t.cocineros
  }

  function WithStaffs(t: Tables, role: Role, rows: seq<Staff>): (r: Tables)
    ensures Staffs(r, role) == rows
    ensures forall other :: other != role ==> Staffs(r, other) == Staffs(t, other)
  {
    match role
    case Manager => t.(gerentes := rows)
    case Waiter => t.(meseros := rows)
    case Cook => t.(cocineros := rows)
  }

  // ---------------------------------------------------------------------
  // Reads: equality filters
  // ---------------------------------------------------------------------

  function MesasByQr(t: Tables, codigoQr: string): seq<Mesa> {
    Filter(t.mesas, (m: Mesa) => m.codigoQr == codigoQr)
  }

  function MesasOf(t: Tables, idRestaurante: int): seq<Mesa> {
    Filter(t.mesas, (m: Mesa) => m.idRestaurante == idRestaurante)
  }

  function MenuOf(t: Tables, idRestaurante: int): seq<Dish> {
    Filter(t.menu, (d: Dish) => d.idRestaurante == idRestaurante)
  }

  function RestaurantesById(t: Tables, id: int): seq<Restaurante> {
    Filter(t.restaurantes, (r: Restaurante) => r.id == id)
  }

  function PedidosOf(t: Tables, idRestaurante: int): seq<Pedido> {
    Filter(t.pedidos, (p: Pedido) => p.idRestaurante == idRestaurante)
  }

  function StaffOf(t: Tables, role: Role, idRestaurante: int): seq<Staff> {
    Filter(Staffs(t, role), (s: Staff) => s.idRestaurante == idRestaurante)
  }

  function StaffById(t: Tables, role: Role, id: nat): seq<Staff> {
    Filter(Staffs(t, role), (s: Staff) => s.id == id)
  }

  function StaffByEmail(t: Tables, role: Role, correo: string): seq<Staff> {
    Filter(Staffs(t, role), (s: Staff) => s.correo == correo)
  }

  function AdminsByEmail(t: Tables, correo: string): seq<Admin> {
    Filter(t.admins, (a: Admin) => a.correo == correo)
  }

  function AtencionesOfMesero(t: Tables, idMesero: nat): seq<Atencion> {
    Filter(t.atenciones, (a: Atencion) => a.idMesero == Some(idMesero))
  }

  /** A lookup by address finds nothing when no row has that address. */
  lemma NoEmailNoRows(t: Tables, role: Role, correo: string)
    requires forall k :: 0 <= k < |Staffs(t, role)| ==> Staffs(t, role)[k].correo != correo
    ensures StaffByEmail(t, role, correo) == []
  {
    FilterNone(Staffs(t, role), (s: Staff) => s.correo == correo);
  }

  // ---------------------------------------------------------------------
  // Writes
  // ---------------------------------------------------------------------

  /** Multi-row inserts give consecutive ids from the serial. */
  function StampMesas(rows: seq<Mesa>, first: nat): (r: seq<Mesa>)
    ensures |r| == |rows|
  {
    seq(|rows|, k requires 0 <= k < |rows| => rows[k].(id := first + k))
  }

  function StampDishes(rows: seq<Dish>, first: nat): (r: seq<Dish>)
    ensures |r| == |rows|
  {
    seq(|rows|, k requires 0 <= k < |rows| => rows[k].(id := first + k))
  }

  function StampDetalles(rows: seq<Detalle>, first: nat): (r: seq<Detalle>)
    ensures |r| == |rows|
  {
    seq(|rows|, k requires 0 <= k < |rows| => rows[k].(id := first + k))
  }

  function InsertRestaurante(t: Tables, row: Restaurante): Tables {
    t.(restaurantes := t.restaurantes + [row.(id := t.nextId)], nextId := t.nextId + 1)
  }

  function InsertStaff(t: Tables, role: Role, row: Staff): Tables {
    WithStaffs(t, role, Staffs(t, role) + [row.(id := t.nextId)]).(nextId := t.nextId + 1)
  }

  function InsertMesas(t: Tables, rows: seq<Mesa>): Tables {
    t.(mesas := t.mesas + StampMesas(rows, t.nextId), nextId := t.nextId + |rows|)
  }

  function InsertDishes(t: Tables, rows: seq<Dish>): Tables {
    t.(menu := t.menu + StampDishes(rows, t.nextId), nextId := t.nextId + |rows|)
  }

  function InsertPedido(t: Tables, row: Pedido): Tables {
    t.(pedidos := t.pedidos + [row.(id := t.nextId)], nextId := t.nextId + 1)
  }

  function InsertDetalles(t: Tables, rows: seq<Detalle>): Tables {
    t.(detalles := t.detalles + StampDetalles(rows, t.nextId), nextId := t.nextId + |rows|)
  }

  function InsertAtencion(t: Tables, row: Atencion): Tables {
    t.(atenciones := t.atenciones + [row.(id := t.nextId)], nextId := t.nextId + 1)
  }

  /** Sets `remember_token` on the staff rows whose key is `id`. */
  function SetStaffToken(t: Tables, role: Role, id: nat, token: string): Tables {
    var rows := Staffs(t, role);
    WithStaffs(t, role, seq(|rows|, k requires 0 <= k < |rows| =>
      if rows[k].id == id then rows[k].(rememberToken := Some(token)) else rows[k]))
  }

  function SetAdminToken(t: Tables, id: nat, token: string): Tables {
    t.(admins := seq(|t.admins|, k requires 0 <= k < |t.admins| =>
      if t.admins[k].id == id then t.admins[k].(rememberToken := Some(token)) else t.admins[k]))
  }

  /** A change to a nullable column: left alone when the key is not sent. */
  datatype Edit<T> = Keep | SetTo(value: T)

  /** The columns `updateMenu` sends. */
  datatype DishChange = DishChange(nombre: string, descripcion: Edit<Option<string>>, precio: int, categoria: string)

  function ApplyDishChange(d: Dish, c: DishChange): Dish {
    d.(nombre := c.nombre, precio := c.precio, categoria := c.categoria,
       descripcion := match c.descripcion { case Keep => d.descripcion case SetTo(v) => v })
  }

  /** Changes the menu rows whose key is `id`. */
  function UpdateDish(t: Tables, id: nat, c: DishChange): Tables {
    t.(menu := seq(|t.menu|, k requires 0 <= k < |t.menu| =>
      if t.menu[k].id == id then ApplyDishChange(t.menu[k], c) else t.menu[k]))
  }

  /** Drops the menu rows whose key is `id`. */
  function DeleteDish(t: Tables, id: nat): Tables {
    t.(menu := Filter(t.menu, (d: Dish) => d.id != id))
  }

  // ---------------------------------------------------------------------
  // The serial stays ahead of every id
  // ---------------------------------------------------------------------

  predicate IdsBelow(t: Tables) {
    var n := t.nextId;
    (forall i :: 0 <= i < |t.restaurantes| ==> t.restaurantes[i].id < n)
    && (forall i :: 0 <= i < |t.gerentes| ==> t.gerentes[i].id < n)
    && (forall i :: 0 <= i < |t.meseros| ==> t.meseros[i].id < n)
    && (forall i :: 0 <= i < |t.cocineros| ==> t.cocineros[i].id < n)
    && (forall i :: 0 <= i < |t.mesas| ==> t.mesas[i].id < n)
    && (forall i :: 0 <= i < |t.menu| ==> t.menu[i].id < n)
    && (forall i :: 0 <= i < |t.pedidos| ==> t.pedidos[i].id < n)
    && (forall i :: 0 <= i < |t.detalles| ==> t.detalles[i].id < n)
    && (forall i :: 0 <= i < |t.atenciones| ==> t.atenciones[i].id < n)
  }

  /** A staff row takes an id no row of its table had, and the serial stays
      ahead of every id. */
  lemma InsertStaffFresh(t: Tables, role: Role, row: Staff)
    requires IdsBelow(t)
    ensures IdsBelow(InsertStaff(t, role, row))
    ensures forall i :: 0 <= i < |Staffs(t, role)| ==> Staffs(t, role)[i].id != t.nextId
    ensures Staffs(InsertStaff(t, role, row), role) == Staffs(t, role) + [row.(id := t.nextId)]
  {
    var r := InsertStaff(t, role, row);
    assert Staffs(r, role) == Staffs(t, role) + [row.(id := t.nextId)];
    match role {
      case Manager =>
      case Waiter =>
      case Cook =>
    }
  }

  /** Multi-row inserts of tables keep the serial ahead and give each new row
      an id no earlier row had. */
  lemma InsertMesasFresh(t: Tables, rows: seq<Mesa>)
    requires IdsBelow(t)
    ensures IdsBelow(InsertMesas(t, rows))
    ensures forall i, j :: 0 <= i < |t.mesas| && 0 <= j < |rows| ==>
      t.mesas[i].id != StampMesas(rows, t.nextId)[j].id
  {
    var r := InsertMesas(t, rows);
    forall i | 0 <= i < |r.mesas| ensures r.mesas[i].id < r.nextId {
      if i >= |t.mesas| {
        assert r.mesas[i] == StampMesas(rows, t.nextId)[i - |t.mesas|];
      }
    }
  }

  lemma InsertPedidoFresh(t: Tables, row: Pedido)
    requires IdsBelow(t)
    ensures IdsBelow(InsertPedido(t, row))
    ensures forall i :: 0 <= i < |t.pedidos| ==> t.pedidos[i].id != t.nextId
  {
  }

  // ---------------------------------------------------------------------
  // The database object
  // ---------------------------------------------------------------------

  class Db {
    var restaurantes: seq<Restaurante>
    var gerentes: seq<Staff>
    var meseros: seq<Staff>
    var cocineros: seq<Staff>
    var admins: seq<Admin>
    var mesas: seq<Mesa>
    var menu: seq<Dish>
    var pedidos: seq<Pedido>
    var detalles: seq<Detalle>
    var atenciones: seq<Atencion>
    var nextId: nat

    function Snapshot(): Tables
      reads this
    {
      Tables(restaurantes, gerentes, meseros, cocineros, admins, mesas, menu, pedidos,
             detalles, atenciones, nextId)
    }

    constructor (t: Tables)
      ensures Snapshot() == t
    {
      restaurantes, gerentes, meseros, cocineros, admins := t.restaurantes, t.gerentes, t.meseros, t.cocineros, t.admins;
      mesas, menu, pedidos, detalles, atenciones := t.mesas, t.menu, t.pedidos, t.detalles, t.atenciones;
      nextId := t.nextId;
    }

    /** Inserts a restaurant; when accepted, the created row (with its id) is
        what a `return=representation` response carries. */
    method PostRestaurante(row: Restaurante, ok: bool) returns (created: Option<Restaurante>)
      modifies this
      ensures Snapshot() == if ok then InsertRestaurante(old(Snapshot()), row) else old(Snapshot())
      ensures created == if ok then Some(row.(id := old(nextId))) else None
    {
      if ok {
        created := Some(row.(id := nextId));
        restaurantes := restaurantes + [created.value];
        nextId := nextId + 1;
      } else {
        created := None;
      }
    }

    method PostStaff(role: Role, row: Staff, ok: bool) returns (created: Option<Staff>)
      modifies this
      ensures Snapshot() == if ok then InsertStaff(old(Snapshot()), role, row) else old(Snapshot())
      ensures created == if ok then Some(row.(id := old(nextId))) else None
    {
      if ok {
        created := Some(row.(id := nextId));
        match role {
          case Manager => gerentes := gerentes + [created.value];
          case Waiter => meseros := meseros + [created.value];
          case Cook => cocineros := cocineros + [created.value];
        }
        nextId := nextId + 1;
      } else {
        created := None;
      }
    }

    method PostMesas(rows: seq<Mesa>, ok: bool)
      modifies this
      ensures Snapshot() == if ok then InsertMesas(old(Snapshot()), rows) else old(Snapshot())
    {
      if ok {
        mesas := mesas + StampMesas(rows, nextId);
        nextId := nextId + |rows|;
      }
    }

    method PostDishes(rows: seq<Dish>, ok: bool)
      modifies this
      ensures Snapshot() == if ok then InsertDishes(old(Snapshot()), rows) else old(Snapshot())
    {
      if ok {
        menu := menu + StampDishes(rows, nextId);
        nextId := nextId + |rows|;
      }
    }

    method PostPedido(row: Pedido, ok: bool) returns (created: Option<Pedido>)
      modifies this
      ensures Snapshot() == if ok then InsertPedido(old(Snapshot()), row) else old(Snapshot())
      ensures created == if ok then Some(row.(id := old(nextId))) else None
    {
      if ok {
        created := Some(row.(id := nextId));
        pedidos := pedidos + [created.value];
        nextId := nextId + 1;
      } else {
        created := None;
      }
    }

    method PostDetalles(rows: seq<Detalle>, ok: bool)
      modifies this
      ensures Snapshot() == if ok then InsertDetalles(old(Snapshot()), rows) else old(Snapshot())
    {
      if ok {
        detalles := detalles + StampDetalles(rows, nextId);
        nextId := nextId + |rows|;
      }
    }

    method PostAtencion(row: Atencion, ok: bool)
      modifies this
      ensures Snapshot() == if ok then InsertAtencion(old(Snapshot()), row) else old(Snapshot())
    {
      if ok {
        atenciones := atenciones + [row.(id := nextId)];
        nextId := nextId + 1;
      }
    }
  
    /** Sets `remember_token` on the rows of a staff table whose key is `id`. */
    method PatchStaffToken(role: Role, id: nat, token: string, ok: bool)
      modifies this
      ensures Snapshot() == if ok then SetStaffToken(old(Snapshot()), role, id, token) else old(Snapshot())
    {
      if ok {
        var rows := Staffs(Snapshot(), role);
        var updated := seq(|rows|, k requires 0 <= k < |rows| =>
          if rows[k].id == id then rows[k].(rememberToken := Some(token)) else rows[k]);
        match role {
          case Manager => gerentes := updated;
          case Waiter => meseros := updated;
          case Cook => cocineros := updated;
        }
      }
    }

    method PatchAdminToken(id: nat, token: string, ok: bool)
      modifies this
      ensures Snapshot() == if ok then SetAdminToken(old(Snapshot()), id, token) else old(Snapshot())
    {
      if ok {
        admins := SetAdminToken(Snapshot(), id, token).admins;
      }
    }

    method PatchDish(id: nat, c: DishChange, ok: bool)
      modifies this
      ensures Snapshot() == if ok then UpdateDish(old(Snapshot()), id, c) else old(Snapshot())
    {
      if ok {
        menu := UpdateDish(Snapshot(), id, c).menu;
      }
    }

    method DropDish(id: nat, ok: bool)
      modifies this
      ensures Snapshot() == if ok then DeleteDish(old(Snapshot()), id) else old(Snapshot())
    {
      if ok {
        menu := Filter(menu, (d: Dish) => d.id != id);
      }
    }
  }
}

/** `UserManagementController`: a manager registers waiters and cooks, and
    waiters and cooks read their own views. The e-mail check and the insert
    go to one staff table at a time. */
module UserManagement {
  import opened Base
  import opened Store
  import opened Validation

  // ---------------------------------------------------------------------
  // registrarMesero / registrarCocinero
  // ---------------------------------------------------------------------

  datatype StaffRequest = StaffRequest(nombre: Value, correo: Value, password: Value, idRestaurante: Value)

  /** The validator's rules, checked before anything else. */
  predicate StaffRequestValid(req: StaffRequest) {
    StringMax(req.nombre, 100) && EmailMax(req.correo, 100) && StringMin(req.password, 6) &&
    RequiredInteger(req.idRestaurante)
  }

  datatype StaffReply =
    | Invalido                // 422 with the validator's errors
    | CorreoRegistrado        // 409 'El correo electrónico ya está registrado.'
    | Registrado(id: nat)     // 201 with the new row's id
    | ErrorServidor           // 500: the insert was refused

  function StaffStatus(r: StaffReply): nat {
    match r
    case Invalido => 422
    case CorreoRegistrado => 409
    case Registrado(_) => 201
    case ErrorServidor => 500
  }

  /** `->where('correo_electronico', $correo)->exists()` on one table. */
  predicate EmailTaken(t: Tables, role: Role, correo: string) {
    StaffByEmail(t, role, correo) != []
  }

  /** The row inserted: the password goes in hashed. */
  function NewStaff(req: StaffRequest): Staff
    requires StaffRequestValid(req)
  {
    Staff(0, req.nombre.s, req.correo.s, HashOf(req.password.s), IntegerValue(req.idRestaurante), None)
  }

  function RegistrarStaffSpec(t: Tables, role: Role, req: StaffRequest, ok: bool): (Tables, StaffReply) {
    if !StaffRequestValid(req) then (t, Invalido)
    else if EmailTaken(t, role, req.correo.s) then (t, CorreoRegistrado)
    else if !ok then (t, ErrorServidor)
    else (InsertStaff(t, role, NewStaff(req)), Registrado(t.nextId))
  }

  /** The check-then-insert both handlers run, on the table of `role`. */
  method RegistrarStaff(db: Db, role: Role, req: StaffRequest, ok: bool) returns (reply: StaffReply)
    modifies db
    ensures (db.Snapshot(), reply) == RegistrarStaffSpec(old(db.Snapshot()), role, req, ok)
  {
    if !StaffRequestValid(req) {
      return Invalido;
    }
    var existe := StaffByEmail(db.Snapshot(), role, req.correo.s) != [];
    if existe {
      return CorreoRegistrado;
    }
    var created := db.PostStaff(role, NewStaff(req), ok);
    match created {
      case None => reply := ErrorServidor;
      case Some(row) => reply := Registrado(row.id);
    }
  }

  method RegistrarMesero(db: Db, req: StaffRequest, ok: bool) returns (reply: StaffReply)
    modifies db
    ensures (db.Snapshot(), reply) == RegistrarStaffSpec(old(db.Snapshot()), Waiter, req, ok)
  {
    reply := RegistrarStaff(db, Waiter, req, ok);
  }

  method RegistrarCocinero(db: Db, req: StaffRequest, ok: bool) returns (reply: StaffReply)
    modifies db
    ensures (db.Snapshot(), reply) == RegistrarStaffSpec(old(db.Snapshot()), Cook, req, ok)
  {
    reply := RegistrarStaff(db, Cook, req, ok);
  }

  /** The answer is 201 exactly when the rules pass, the address is not in
      that table and the insert is accepted; 409 exactly when the rules pass
      and the address is taken; 422 exactly when the rules fail. Every answer
      but 201 leaves the store as it was. */
  lemma RegistrarOutcome(t: Tables, role: Role, req: StaffRequest, ok: bool)
    ensures var (t', r) := RegistrarStaffSpec(t, role, req, ok);
      (StaffStatus(r) == 201 <==> StaffRequestValid(req) && !EmailTaken(t, role, req.correo.s) && ok) &&
      (StaffStatus(r) == 409 <==> StaffRequestValid(req) && EmailTaken(t, role, req.correo.s)) &&
      (StaffStatus(r) == 422 <==> !StaffRequestValid(req)) &&
      (StaffStatus(r) != 201 ==> t' == t)
  {
  }

  /** A registration appends exactly one row to that table, with the
      reported id, the submitted name and address, and the hash of the
      submitted password; no other table changes. */
  lemma RegisteredRow(t: Tables, role: Role, req: StaffRequest, ok: bool)
    ensures var (t', r) := RegistrarStaffSpec(t, role, req, ok);
      r.Registrado? ==>
        |Staffs(t', role)| == |Staffs(t, role)| + 1 &&
        Staffs(t', role)[..|Staffs(t, role)|] == Staffs(t, role) &&
        var row := Staffs(t', role)[|Staffs(t, role)|];
        row.id == r.id && row.nombre == req.nombre.s && row.correo == req.correo.s &&
        HashCheck(req.password.s, row.password) && row.rememberToken == None &&
        (forall other :: other != role ==> Staffs(t', other) == Staffs(t, other)) &&
        t'.restaurantes == t.restaurantes && t'.admins == t.admins && t'.mesas == t.mesas &&
        t'.pedidos == t.pedidos && t'.atenciones == t.atenciones
  {
    var (t', r) := RegistrarStaffSpec(t, role, req, ok);
    if r.Registrado? {
      assert Staffs(t', role) == Staffs(t, role) + [NewStaff(req).(id := t.nextId)];
    }
  }

  /** No two rows of a staff table share an address. */
  predicate UniqueEmails(rows: seq<Staff>) {
    forall i, j :: 0 <= i < j < |rows| ==> rows[i].correo != rows[j].correo
  }

  /** Registration keeps addresses unique within the table it writes. */
  lemma EmailsStayUnique(t: Tables, role: Role, req: StaffRequest, ok: bool)
    requires UniqueEmails(Staffs(t, role))
    ensures UniqueEmails(Staffs(RegistrarStaffSpec(t, role, req, ok).0, role))
  {
    var (t', r) := RegistrarStaffSpec(t, role, req, ok);
    if r.Registrado? {
      var rows := Staffs(t, role);
      var row := NewStaff(req).(id := t.nextId);
      assert Staffs(t', role) == rows + [row];
      var correo := req.correo.s;
      FilterEmpty(rows, (s: Staff) => s.correo == correo);
    }
  }

  /** The check looks at the table being written only: what the other staff
      tables hold does not change the outcome, so a waiter may have a cook's
      address. */
  lemma UniquenessPerTable(t: Tables, role: Role, other: Role, rows: seq<Staff>, req: StaffRequest, ok: bool)
    requires other != role
    ensures RegistrarStaffSpec(WithStaffs(t, other, rows), role, req, ok).1 == RegistrarStaffSpec(t, role, req, ok).1
  {
    var t2 := WithStaffs(t, other, rows);
    assert Staffs(t2, role) == Staffs(t, role);
    assert t2.nextId == t.nextId by {
      match other {
        case Manager =>
        case Waiter =>
        case Cook =>
      }
    }
  }

  // ---------------------------------------------------------------------
  // getMesero / getCocinero
  // ---------------------------------------------------------------------

  datatype MeseroView =
    | MeseroNoEncontrado     // 404 'Mesero no encontrado'
    | MeseroData(id: nat, nombre: string, correo: string,
                 solicitudes: seq<Atencion>, pedidos: seq<Pedido>, mesas: seq<Mesa>)

  datatype CocineroView =
    | CocineroNoEncontrado   // 404 'Cocinero no encontrado'
    | CocineroData(id: nat, nombre: string, correo: string, pedidos: seq<Pedido>)

  /** The waiter's view: the requests assigned to them, and the orders and
      tables of their restaurant. */
  function GetMesero(t: Tables, id: nat): MeseroView {
    match FirstOf(StaffById(t, Waiter, id)) {
      case None => MeseroNoEncontrado
      case Some(m) => MeseroData(m.id, m.nombre, m.correo, AtencionesOfMesero(t, id),
                                 PedidosOf(t, m.idRestaurante), MesasOf(t, m.idRestaurante))
    }
  }

  /** The cook's view: the orders of their restaurant. */
  function GetCocinero(t: Tables, id: nat): CocineroView {
    match FirstOf(StaffById(t, Cook, id)) {
      case None => CocineroNoEncontrado
      case Some(c) => CocineroData(c.id, c.nombre, c.correo, PedidosOf(t, c.idRestaurante))
    }
  }

  /** Not found exactly when no waiter has the id; otherwise the view is of
      a waiter with that id, and its lists hold exactly that waiter's
      requests and its restaurant's orders and tables. */
  lemma GetMeseroScoped(t: Tables, id: nat)
    ensures GetMesero(t, id).MeseroNoEncontrado? <==> forall k :: 0 <= k < |t.meseros| ==> t.meseros[k].id != id
    ensures var v := GetMesero(t, id);
      v.MeseroData? ==>
        v.id == id &&
        exists m :: m in t.meseros && m.id == id && m.nombre == v.nombre && m.correo == v.correo &&
          (forall a :: a in v.solicitudes <==> a in t.atenciones && a.idMesero == Some(id)) &&
          (forall p :: p in v.pedidos <==> p in t.pedidos && p.idRestaurante == m.idRestaurante) &&
          (forall x :: x in v.mesas <==> x in t.mesas && x.idRestaurante == m.idRestaurante)
  {
    var found := StaffById(t, Waiter, id);
    if found == [] {
      FilterNoneOfId(t, Waiter, id);
    } else {
      assert found[0] in t.meseros;
    }
  }

  /** Not found exactly when no cook has the id; otherwise the orders are
      exactly those of the cook's restaurant. */
  lemma GetCocineroScoped(t: Tables, id: nat)
    ensures GetCocinero(t, id).CocineroNoEncontrado? <==> forall k :: 0 <= k < |t.cocineros| ==> t.cocineros[k].id != id
    ensures var v := GetCocinero(t, id);
      v.CocineroData? ==>
        v.id == id &&
        exists c :: c in t.cocineros && c.id == id && c.nombre == v.nombre && c.correo == v.correo &&
          (forall p :: p in v.pedidos <==> p in t.pedidos && p.idRestaurante == c.idRestaurante)
  {
    var found := StaffById(t, Cook, id);
    if found == [] {
      FilterNoneOfId(t, Cook, id);
    } else {
      assert found[0] in t.cocineros;
    }
  }

  /** A lookup by id finds nothing exactly when no row has that id. */
  lemma FilterNoneOfId(t: Tables, role: Role, id: nat)
    requires StaffById(t, role, id) == []
    ensures forall k :: 0 <= k < |Staffs(t, role)| ==> Staffs(t, role)[k].id != id
  {
    FilterEmpty(Staffs(t, role), (s: Staff) => s.id == id);
  }
}

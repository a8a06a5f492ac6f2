/** `AuthController::login`: one login form for every kind of user. The
    address is looked up in the manager, waiter, cook and administrator
    tables; the first table with a match decides who logs in. After the
    password check a fresh session token is stored on that user's row and
    returned with a description of the user. */
module Auth {
  import opened Base
  import opened Gateway
  import opened Store
  import opened Text
  import opened Validation

  datatype LoginRequest = LoginRequest(correo: Value, password: Value)

  /** `correo_electronico` is `required|email`, `password` is `required`. */
  predicate LoginValid(req: LoginRequest) {
    RequiredEmail(req.correo) && Required(req.password)
  }

  // ---------------------------------------------------------------------
  // Who logs in
  // ---------------------------------------------------------------------

  /** The user a login resolves to: a staff row of one of the three staff
      tables, or an administrator. */
  datatype Principal = StaffP(role: Role, staff: Staff) | AdminP(admin: Admin)

  /** The `tipo` tag the response carries. */
  function Tipo(p: Principal): string {
    match p {
      case StaffP(Manager, _) => "gerente"
      case StaffP(Waiter, _) => "mesero"
      case StaffP(Cook, _) => "cocina"
      case AdminP(_) => "admin"
    }
  }

  function PasswordOf(p: Principal): Digest {
    match p {
      case StaffP(_, s) => s.password
      case AdminP(a) => a.password
    }
  }

  /** The fixed priority: managers, then waiters, then cooks, then
      administrators; the first row of the first non-empty result. */
  function Resolve(gerentes: seq<Staff>, meseros: seq<Staff>, cocineros: seq<Staff>, admins: seq<Admin>): Option<Principal> {
    if gerentes != [] then Some(StaffP(Manager, gerentes[0]))
    else if meseros != [] then Some(StaffP(Waiter, meseros[0]))
    else if cocineros != [] then Some(StaffP(Cook, cocineros[0]))
    else if admins != [] then Some(AdminP(admins[0]))
    else None
  }

  /** A user is found exactly when some table has a match; a lower-priority
      table is used only when every higher-priority one came back empty, and
      the user is the first row of the table chosen. */
  lemma ResolvePriority(gerentes: seq<Staff>, meseros: seq<Staff>, cocineros: seq<Staff>, admins: seq<Admin>)
    ensures var p := Resolve(gerentes, meseros, cocineros, admins);
      (p.None? <==> gerentes == [] && meseros == [] && cocineros == [] && admins == []) &&
      (p.Some? && p.value.StaffP? && p.value.role == Manager ==> p.value.staff == gerentes[0]) &&
      (p.Some? && p.value.StaffP? && p.value.role == Waiter ==> gerentes == [] && p.value.staff == meseros[0]) &&
      (p.Some? && p.value.StaffP? && p.value.role == Cook ==> gerentes == [] && meseros == [] && p.value.staff == cocineros[0]) &&
      (p.Some? && p.value.AdminP? ==> gerentes == [] && meseros == [] && cocineros == [] && p.value.admin == admins[0]) &&
      (gerentes != [] ==> p == Some(StaffP(Manager, gerentes[0])))
  {
  }

  /** The tags emitted are exactly `gerente`, `mesero`, `cocina` and
      `admin`, one per kind of user. */
  lemma TipoTags(p: Principal)
    ensures Tipo(p) in {"gerente", "mesero", "cocina", "admin"}
    ensures Tipo(p) == "admin" <==> p.AdminP?
    ensures Tipo(p) == "cocina" <==> p.StaffP? && p.role == Cook
    ensures Tipo(p) == "mesero" <==> p.StaffP? && p.role == Waiter
    ensures Tipo(p) == "gerente" <==> p.StaffP? && p.role == Manager
  {
  }

  // ---------------------------------------------------------------------
  // Looking the address up
  // ---------------------------------------------------------------------

  /** The address the lookup compares against, as written: the raw address
      is passed as the filter value, and `select` strips a leading `eq.` from
      it. */
  function LoginKeyAsWritten(correo: string): string {
    StripEq(correo)
  }

  /** The evidently intended lookup, in the form the other controllers use:
      `'eq.' . $correo`, which `select` reduces to the address itself. */
  function LoginKey(correo: string): (k: string)
    ensures k == correo
  {
    StripEq("eq." + correo)
  }

  /** The two agree on every address that does not start with `eq.`. */
  lemma LoginKeysAgree(correo: string)
    requires !("eq." <= correo)
    ensures LoginKeyAsWritten(correo) == LoginKey(correo)
  {
  }

  /** As written, an address starting with `eq.` is looked up without that
      prefix: each table is searched for `correo[3..]`, so a row holding the
      typed address is never among the candidates, and some row is found
      exactly when one holds the shortened address. */
  lemma LoginKeyAsWrittenMisses(t: Tables, role: Role, correo: string)
    requires "eq." <= correo
    ensures StaffByEmail(t, role, LoginKeyAsWritten(correo)) == StaffByEmail(t, role, correo[3..])
    ensures AdminsByEmail(t, LoginKeyAsWritten(correo)) == AdminsByEmail(t, correo[3..])
    ensures var rows := StaffByEmail(t, role, LoginKeyAsWritten(correo));
      (forall k :: 0 <= k < |rows| ==> rows[k].correo != correo) &&
      (rows != [] <==> exists k :: 0 <= k < |Staffs(t, role)| && Staffs(t, role)[k].correo == correo[3..])
  {
    var key := LoginKeyAsWritten(correo);
    assert "eq." + key == correo;
    assert key == correo[3..];
    var rows := StaffByEmail(t, role, key);
    forall k | 0 <= k < |rows| ensures rows[k].correo != correo {
      assert rows[k].correo == key && |key| < |correo|;
    }
    if rows != [] {
      assert rows[0] in Staffs(t, role);
      var k :| 0 <= k < |Staffs(t, role)| && Staffs(t, role)[k] == rows[0];
    }
  }

  /** The example account `eq.ana@cafe.mx`, alone in the managers' table, is
      not found as written; the intended lookup finds it. */
  lemma EqAccountNotFound(t: Tables)
    requires t.gerentes == [Staff(1, "Ana", "eq.ana@cafe.mx", HashOf("secreto"), 1, None)]
    ensures StaffByEmail(t, Manager, LoginKeyAsWritten("eq.ana@cafe.mx")) == []
    ensures StaffByEmail(t, Manager, LoginKey("eq.ana@cafe.mx")) == t.gerentes
  {
    var e := "eq.ana@cafe.mx";
    assert "eq." <= e;
    LoginKeyAsWrittenMisses(t, Manager, e);
    assert e[3..] != e;
    NoEmailNoRows(t, Manager, e[3..]);
    assert StaffByEmail(t, Manager, e) == t.gerentes;
  }

  /** Such an address passes the `email` rule, so the request reaches the
      lookup. */
  lemma EqAddressIsEmail()
    ensures IsEmail("eq.ana@cafe.mx")
  {
    var local, domain := "eq.ana", "cafe.mx";
    assert forall i :: 0 <= i < |local| ==> local[i] != '@' && !IsPhpSpace(local[i]);
    assert forall i :: 0 <= i < |domain| ==> domain[i] != '@' && !IsPhpSpace(domain[i]);
    EmailOf(local, domain);
    assert local + ['@'] + domain == "eq.ana@cafe.mx";
  }

  /** With the intended lookup, the candidates of each table are exactly its
      rows with that address. */
  lemma LoginKeyExact(t: Tables, role: Role, correo: string)
    ensures var rows := StaffByEmail(t, role, LoginKey(correo));
      (forall k :: 0 <= k < |rows| ==> rows[k].correo == correo && rows[k] in Staffs(t, role)) &&
      (forall k :: 0 <= k < |Staffs(t, role)| && Staffs(t, role)[k].correo == correo ==> Staffs(t, role)[k] in rows)
  {
  }

  /** The user found under a lookup key. */
  function FindByKey(t: Tables, key: string): Option<Principal> {
    Resolve(StaffByEmail(t, Manager, key), StaffByEmail(t, Waiter, key), StaffByEmail(t, Cook, key), AdminsByEmail(t, key))
  }

  /** The intended lookup, which the login of this model uses. */
  function FindPrincipal(t: Tables, correo: string): Option<Principal> {
    FindByKey(t, LoginKey(correo))
  }

  /** The lookup as written. */
  function FindPrincipalAsWritten(t: Tables, correo: string): Option<Principal> {
    FindByKey(t, LoginKeyAsWritten(correo))
  }

  function CorreoOf(p: Principal): string {
    match p {
      case StaffP(_, s) => s.correo
      case AdminP(a) => a.correo
    }
  }

  /** Whoever a key finds holds that key as their address. */
  lemma FindByKeyHoldsKey(t: Tables, key: string)
    ensures FindByKey(t, key).Some? ==> CorreoOf(FindByKey(t, key).value) == key
  {
  }

  /** As written, the lookup is the intended one of the address without a
      leading `eq.`; off that prefix the two agree. Whoever it finds for an
      `eq.` address holds a different address. */
  lemma FindPrincipalAsWrittenStripped(t: Tables, correo: string)
    ensures FindPrincipalAsWritten(t, correo) == FindPrincipal(t, StripEq(correo))
    ensures !("eq." <= correo) ==> FindPrincipalAsWritten(t, correo) == FindPrincipal(t, correo)
    ensures "eq." <= correo && FindPrincipalAsWritten(t, correo).Some? ==>
      CorreoOf(FindPrincipalAsWritten(t, correo).value) == correo[3..] != correo
  {
    FindByKeyHoldsKey(t, LoginKeyAsWritten(correo));
    if "eq." <= correo {
      assert "eq." + StripEq(correo) == correo;
      assert StripEq(correo) == correo[3..];
    }
  }

  // ---------------------------------------------------------------------
  // The login
  // ---------------------------------------------------------------------

  /** `Str::random(60)` and whether the token write is accepted. */
  datatype LoginEnv = LoginEnv(token: string, tokenWriteOk: bool)

  datatype UserData =
    | StaffUser(id: nat, tipo: string, nombre: string, correo: string, restaurante: Restaurante)
    | AdminUser(id: nat, nombre: string, correo: string, departamento: string)

  datatype LoginReply =
    | LoginOk(token: string, user: UserData)  // 200 {token, user}
    | UsuarioNoEncontrado                     // 401 'Credenciales incorrectas' / 'Usuario no encontrado'
    | ContrasenaIncorrecta                    // 401 'Credenciales incorrectas' / 'Contraseña incorrecta'
    | ErrorServidor                           // 500 'Error en el servidor'

  function LoginStatus(r: LoginReply): nat {
    match r {
      case LoginOk(_, _) => 200
      case UsuarioNoEncontrado => 401
      case ContrasenaIncorrecta => 401
      case ErrorServidor => 500
    }
  }

  /** Stores the token on the principal's own row, addressed by its key. */
  function WriteToken(t: Tables, p: Principal, token: string): Tables {
    match p {
      case StaffP(role, s) => SetStaffToken(t, role, s.id, token)
      case AdminP(a) => SetAdminToken(t, a.id, token)
    }
  }

  /** The database after a login attempt, and its reply. A failed validation
      is thrown inside the `try` and so becomes a 500. */
  function LoginSpec(t: Tables, req: LoginRequest, env: LoginEnv): (Tables, LoginReply)
    requires |env.token| == 60
  {
    if !LoginValid(req) then (t, ErrorServidor)
    else LoginFound(t, req, env, FindPrincipal(t, req.correo.s))
  }

  /** The login as written: the same steps after the lookup as written. */
  function LoginSpecAsWritten(t: Tables, req: LoginRequest, env: LoginEnv): (Tables, LoginReply)
    requires |env.token| == 60
  {
    if !LoginValid(req) then (t, ErrorServidor)
    else LoginFound(t, req, env, FindPrincipalAsWritten(t, req.correo.s))
  }

  /** What follows the lookup: 401 when nobody is found, the password
      check, the token write and the reply. */
  function LoginFound(t: Tables, req: LoginRequest, env: LoginEnv, found: Option<Principal>): (Tables, LoginReply)
    requires |env.token| == 60
  {
    match found {
      case None => (t, UsuarioNoEncontrado)
      case Some(p) =>
        if !HashCheck(Render(req.password), PasswordOf(p)) then (t, ContrasenaIncorrecta)
        else
          var t1 := if env.tokenWriteOk then WriteToken(t, p, env.token) else t;
          match p {
            case AdminP(a) => (t1, LoginOk(env.token, AdminUser(a.id, a.nombre, a.correo, a.departamento)))
            case StaffP(_, s) =>
              match FirstOf(RestaurantesById(t1, s.idRestaurante)) {
                case None => (t1, ErrorServidor)
                case Some(r) =>
                  (t1, LoginOk(env.token, StaffUser(s.id, Tipo(p), s.nombre, s.correo,
                                                    Restaurante(s.idRestaurante, r.nombre, r.ubicacion))))
              }
          }
    }
  }

  method Login(db: Db, req: LoginRequest, env: LoginEnv) returns (reply: LoginReply)
    requires |env.token| == 60
    modifies db
    ensures (db.Snapshot(), reply) == LoginSpec(old(db.Snapshot()), req, env)
  {
    if !LoginValid(req) {
      return ErrorServidor;
    }
    var usuario := FindPrincipal(db.Snapshot(), req.correo.s);
    if usuario.None? {
      return UsuarioNoEncontrado;
    }
    var p := usuario.value;
    if !HashCheck(Render(req.password), PasswordOf(p)) {
      return ContrasenaIncorrecta;
    }
    var token := env.token;
    match p {
      case AdminP(a) =>
        db.PatchAdminToken(a.id, token, env.tokenWriteOk);
        reply := LoginOk(token, AdminUser(a.id, a.nombre, a.correo, a.departamento));
      case StaffP(role, s) =>
        db.PatchStaffToken(role, s.id, token, env.tokenWriteOk);
        var restaurante := FirstOf(RestaurantesById(db.Snapshot(), s.idRestaurante));
        if restaurante.None? {
          return ErrorServidor;
        }
        var r := restaurante.value;
        reply := LoginOk(token, StaffUser(s.id, Tipo(p), s.nombre, s.correo, Restaurante(s.idRestaurante, r.nombre, r.ubicacion)));
    }
  }

  // ---------------------------------------------------------------------
  // What a login guarantees
  // ---------------------------------------------------------------------

  /** An address no table holds gets 401 'Usuario no encontrado' and nothing
      is written. */
  lemma UnknownUserWritesNothing(t: Tables, req: LoginRequest, env: LoginEnv)
    requires |env.token| == 60 && LoginValid(req)
    requires forall k :: 0 <= k < |t.gerentes| ==> t.gerentes[k].correo != req.correo.s
    requires forall k :: 0 <= k < |t.meseros| ==> t.meseros[k].correo != req.correo.s
    requires forall k :: 0 <= k < |t.cocineros| ==> t.cocineros[k].correo != req.correo.s
    requires forall k :: 0 <= k < |t.admins| ==> t.admins[k].correo != req.correo.s
    ensures LoginSpec(t, req, env) == (t, UsuarioNoEncontrado)
    ensures LoginStatus(LoginSpec(t, req, env).1) == 401
  {
    var key := LoginKey(req.correo.s);
    NoEmailNoRows(t, Manager, key);
    NoEmailNoRows(t, Waiter, key);
    NoEmailNoRows(t, Cook, key);
  }

  /** As written, a login with an address starting with `eq.` goes on as the
      intended login of the address without that prefix would, while the
      rules still see the typed address; any other address logs in exactly
      as intended. A successful login of an `eq.` address is never the
      account holding that address. */
  lemma LoginAsWrittenStripped(t: Tables, req: LoginRequest, env: LoginEnv)
    requires |env.token| == 60
    ensures req.correo.Str? && !("eq." <= req.correo.s) ==> LoginSpecAsWritten(t, req, env) == LoginSpec(t, req, env)
    ensures LoginValid(req) && "eq." <= req.correo.s ==>
      LoginSpecAsWritten(t, req, env) == LoginFound(t, req, env, FindPrincipal(t, req.correo.s[3..]))
    ensures var reply := LoginSpecAsWritten(t, req, env).1;
      LoginValid(req) && "eq." <= req.correo.s && reply.LoginOk? ==> reply.user.correo != req.correo.s
  {
    if req.correo.Str? {
      FindPrincipalAsWrittenStripped(t, req.correo.s);
      if LoginValid(req) {
        LoginFoundUser(t, req, env, FindPrincipalAsWritten(t, req.correo.s));
      }
    }
  }

  /** A successful login describes the user found, with that user's
      address. */
  lemma LoginFoundUser(t: Tables, req: LoginRequest, env: LoginEnv, found: Option<Principal>)
    requires |env.token| == 60
    ensures var reply := LoginFound(t, req, env, found).1;
      reply.LoginOk? ==> found.Some? && reply.user.correo == CorreoOf(found.value)
  {
  }

  /** As written, an address that no table holds once a leading `eq.` is
      cut off gets 401 'Usuario no encontrado' and nothing is written. */
  lemma UnknownUserWritesNothingAsWritten(t: Tables, req: LoginRequest, env: LoginEnv)
    requires |env.token| == 60 && LoginValid(req)
    requires forall k :: 0 <= k < |t.gerentes| ==> t.gerentes[k].correo != StripEq(req.correo.s)
    requires forall k :: 0 <= k < |t.meseros| ==> t.meseros[k].correo != StripEq(req.correo.s)
    requires forall k :: 0 <= k < |t.cocineros| ==> t.cocineros[k].correo != StripEq(req.correo.s)
    requires forall k :: 0 <= k < |t.admins| ==> t.admins[k].correo != StripEq(req.correo.s)
    ensures LoginSpecAsWritten(t, req, env) == (t, UsuarioNoEncontrado)
  {
    var key := LoginKeyAsWritten(req.correo.s);
    NoEmailNoRows(t, Manager, key);
    NoEmailNoRows(t, Waiter, key);
    NoEmailNoRows(t, Cook, key);
  }

  /** A wrong password gets 401 'Contraseña incorrecta' and no token is
      written. */
  lemma WrongPasswordWritesNothing(t: Tables, req: LoginRequest, env: LoginEnv)
    requires |env.token| == 60 && LoginValid(req)
    requires FindPrincipal(t, req.correo.s).Some?
    requires !HashCheck(Render(req.password), PasswordOf(FindPrincipal(t, req.correo.s).value))
    ensures LoginSpec(t, req, env) == (t, ContrasenaIncorrecta)
  {
  }

  /** A successful login returns the 60-character token, and what is
      stored is that token, written on the principal's row. */
  lemma TokenReturnedIsStored(t: Tables, req: LoginRequest, env: LoginEnv)
    requires |env.token| == 60
    ensures var (t', reply) := LoginSpec(t, req, env);
      reply.LoginOk? ==>
        FindPrincipal(t, req.correo.s).Some? &&
        |reply.token| == 60 && reply.token == env.token &&
        t' == if env.tokenWriteOk then WriteToken(t, FindPrincipal(t, req.correo.s).value, reply.token) else t
  {
  }

  /** Writing the token touches only the principal's own table, and in it
      only the rows with the principal's key. */
  lemma WriteTokenFrame(t: Tables, p: Principal, token: string)
    ensures var t' := WriteToken(t, p, token);
      t'.restaurantes == t.restaurantes && t'.mesas == t.mesas && t'.menu == t.menu &&
      t'.pedidos == t.pedidos && t'.atenciones == t.atenciones && t'.nextId == t.nextId
    ensures p.StaffP? ==> var t' := WriteToken(t, p, token);
      t'.admins == t.admins &&
      (forall other :: other != p.role ==> Staffs(t', other) == Staffs(t, other)) &&
      |Staffs(t', p.role)| == |Staffs(t, p.role)| &&
      forall k :: 0 <= k < |Staffs(t, p.role)| ==>
        Staffs(t', p.role)[k] == (if Staffs(t, p.role)[k].id == p.staff.id
                                  then Staffs(t, p.role)[k].(rememberToken := Some(token))
                                  else Staffs(t, p.role)[k])
    ensures p.AdminP? ==> var t' := WriteToken(t, p, token);
      t'.gerentes == t.gerentes && t'.meseros == t.meseros && t'.cocineros == t.cocineros &&
      |t'.admins| == |t.admins| &&
      forall k :: 0 <= k < |t.admins| ==>
        t'.admins[k] == (if t.admins[k].id == p.admin.id then t.admins[k].(rememberToken := Some(token)) else t.admins[k])
  {
  }

  /** The principal's row does hold the token afterwards. */
  lemma TokenStored(t: Tables, role: Role, s: Staff, token: string)
    requires s in Staffs(t, role)
    ensures exists k :: (0 <= k < |Staffs(SetStaffToken(t, role, s.id, token), role)| &&
      Staffs(SetStaffToken(t, role, s.id, token), role)[k] == s.(rememberToken := Some(token)))
  {
    var k :| 0 <= k < |Staffs(t, role)| && Staffs(t, role)[k] == s;
    assert Staffs(SetStaffToken(t, role, s.id, token), role)[k] == s.(rememberToken := Some(token));
  }

  /** Staff users carry their restaurant, looked up by their restaurant id,
      and the tag of their table; administrators carry their department. */
  lemma LoginUserShape(t: Tables, req: LoginRequest, env: LoginEnv)
    requires |env.token| == 60
    ensures var (t', reply) := LoginSpec(t, req, env);
      reply.LoginOk? ==>
        var p := FindPrincipal(t, req.correo.s).value;
        HashCheck(Render(req.password), PasswordOf(p)) &&
        match p {
          case StaffP(role, s) =>
            reply.user.StaffUser? && reply.user.id == s.id && reply.user.tipo == Tipo(p) &&
            reply.user.restaurante.id == s.idRestaurante &&
            exists k :: 0 <= k < |t.restaurantes| && t.restaurantes[k].id == s.idRestaurante &&
              t.restaurantes[k].nombre == reply.user.restaurante.nombre &&
              t.restaurantes[k].ubicacion == reply.user.restaurante.ubicacion
          case AdminP(a) =>
            reply.user == AdminUser(a.id, a.nombre, a.correo, a.departamento)
        }
  {
    var (t', reply) := LoginSpec(t, req, env);
    if reply.LoginOk? {
      var p := FindPrincipal(t, req.correo.s).value;
      if p.StaffP? {
        var s := p.staff;
        var t1 := if env.tokenWriteOk then WriteToken(t, p, env.token) else t;
        assert t1.restaurantes == t.restaurantes;
        var rows := RestaurantesById(t1, s.idRestaurante);
        assert rows != [] && reply.user.restaurante == Restaurante(s.idRestaurante, rows[0].nombre, rows[0].ubicacion);
        var k :| 0 <= k < |t.restaurantes| && t.restaurantes[k] == rows[0];
        assert t.restaurantes[k].id == s.idRestaurante;
      }
    }
  }

  /** An invalid request is answered with 500, not 422, and nothing is
      written. */
  lemma InvalidLoginIsServerError(t: Tables, req: LoginRequest, env: LoginEnv)
    requires |env.token| == 60 && !LoginValid(req)
    ensures LoginSpec(t, req, env) == (t, ErrorServidor)
    ensures LoginStatus(LoginSpec(t, req, env).1) == 500
  {
  }
}

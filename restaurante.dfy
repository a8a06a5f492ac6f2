/** `RestauranteController::registrar`: validates the registration form and
    hands the restaurant, its manager (with a bcrypt-hashed password) and its
    menu to provisioning. */
module Restaurante {
  import opened Base
  import opened Store
  import opened Validation
  import opened Provisioning

  /** `gerente` in the request: not an array, or an array with its three
      fields. */
  datatype GerenteField = NotAnArray(raw: Value) | GerenteFields(nombre: Value, correo: Value, password: Value)

  /** The registration request; `menu` is `None` when the key is absent. */
  datatype RegistroRequest = RegistroRequest(nombre: Value, ubicacion: Value, gerente: GerenteField,
                                             numMesas: Value, menu: Option<seq<MenuItemInput>>)

  /** The validator's rules for the form. */
  predicate RegistroValid(req: RegistroRequest) {
    StringMax(req.nombre, 100) && StringMax(req.ubicacion, 150) &&
    req.gerente.GerenteFields? &&
    StringMax(req.gerente.nombre, 100) && EmailMax(req.gerente.correo, 100) &&
    StringBetween(req.gerente.password, 6, 100)
  }

  datatype RegistrarReply =
    | Invalid                          // 422 with the validator's errors
    | Registrado(data: Registration)   // 201 'Restaurante registrado exitosamente'
    | Error(failure: Failure)          // 500 'Error al registrar el restaurante'

  function Status(r: RegistrarReply): (code: nat)
    ensures code == 201 <==> r.Registrado?
  {
    match r {
      case Invalid => 422
      case Registrado(_) => 201
      case Error(_) => 500
    }
  }

  /** `$request->input('menu', [])`. */
  function MenuItems(menu: Option<seq<MenuItemInput>>): seq<MenuItemInput> {
    match menu { case None => [] case Some(items) => items }
  }

  /** The tables provisioning is asked for: the service's default, since the
      controller does not pass `num_mesas`. */
  const DefaultNumMesas := 1

  /** The database after the request, and the reply. */
  function RegistrarSpec(t: Tables, req: RegistroRequest, env: Env): (Tables, RegistrarReply) {
    if !RegistroValid(req) then (t, Invalid)
    else
      var g := req.gerente;
      var (t', out) := Provision(t, RestauranteData(req.nombre.s, req.ubicacion.s),
                                 GerenteData(g.nombre.s, g.correo.s, HashOf(g.password.s)),
                                 MenuItems(req.menu), DefaultNumMesas, env);
      (t', match out { case Registered(r) => Registrado(r) case Threw(f) => Error(f) })
  }

  method Registrar(db: Db, req: RegistroRequest, env: Env) returns (reply: RegistrarReply)
    modifies db
    ensures (db.Snapshot(), reply) == RegistrarSpec(old(db.Snapshot()), req, env)
  {
    if !RegistroValid(req) {
      return Invalid;
    }
    var restauranteData := RestauranteData(req.nombre.s, req.ubicacion.s);
    var gerenteData := GerenteData(req.gerente.nombre.s, req.gerente.correo.s, HashOf(req.gerente.password.s));
    var menuItems := MenuItems(req.menu);
    var result := RegisterFullRestaurant(db, restauranteData, gerenteData, menuItems, DefaultNumMesas, env);
    match result {
      case Registered(r) => reply := Registrado(r);
      case Threw(f) => reply := Error(f);
    }
  }

  /** A request the validator rejects gets 422 and the store is not
      touched. */
  lemma InvalidWritesNothing(t: Tables, req: RegistroRequest, env: Env)
    requires !RegistroValid(req)
    ensures RegistrarSpec(t, req, env) == (t, Invalid)
    ensures Status(RegistrarSpec(t, req, env).1) == 422
  {
  }

  /** The requested number of tables is ignored: the outcome is the same for
      any `num_mesas`, and a successful registration creates exactly one
      table. */
  lemma NumMesasIgnored(t: Tables, req: RegistroRequest, env: Env, other: Value)
    ensures RegistrarSpec(t, req, env) == RegistrarSpec(t, req.(numMesas := other), env)
    ensures var (t', r) := RegistrarSpec(t, req, env);
      r.Registrado? ==> r.data.numMesasCreadas == 1 && |t'.mesas| == |t.mesas| + 1
  {
    var (t', r) := RegistrarSpec(t, req, env);
    if r.Registrado? {
      var g := req.gerente;
      ProvisionOutcome(t, RestauranteData(req.nombre.s, req.ubicacion.s),
                       GerenteData(g.nombre.s, g.correo.s, HashOf(g.password.s)), MenuItems(req.menu), 1, env);
      ProvisionSucceeds(t, RestauranteData(req.nombre.s, req.ubicacion.s),
                        GerenteData(g.nombre.s, g.correo.s, HashOf(g.password.s)), MenuItems(req.menu), 1, env);
    }
  }

  /** The manager row written holds the hash of the submitted password, which
      checks against it; the plain password is never stored. */
  lemma ManagerPasswordHashed(t: Tables, req: RegistroRequest, env: Env)
    requires RegistroValid(req)
    ensures var t' := RegistrarSpec(t, req, env).0;
      |t'.gerentes| > |t.gerentes| ==>
        t'.gerentes[|t.gerentes|].password == HashOf(req.gerente.password.s) &&
        HashCheck(req.gerente.password.s, t'.gerentes[|t.gerentes|].password)
  {
  }

  /** An absent menu behaves like an empty one. */
  lemma MenuDefaultsToEmpty(t: Tables, req: RegistroRequest, env: Env)
    requires req.menu == None
    ensures RegistrarSpec(t, req, env) == RegistrarSpec(t, req.(menu := Some([])), env)
  {
  }
}

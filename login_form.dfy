/** The login page's `handleSubmit`: what it does with the server's answer:
    the token it stores, the user it keeps, the route it takes or the error
    it shows. */
module LoginForm {
  import opened Base
  import opened Text
  import opened Validation
  import Auth
  import Store

  /** `data.user.restaurante` and `data.user` as the page reads them. */
  datatype RestauranteJson = RestauranteJson(id: int)
  datatype UserJson = UserJson(id: int, tipo: string, restaurante: Option<RestauranteJson>)

  /** A JSON body: `token` and `user` are `None` when absent; `message` is ""
      when absent or empty (both falsy). */
  datatype Body = Body(token: Option<string>, user: Option<UserJson>, message: string)

  /** How the request ends: no answer at all, or a status and a body that
      is `None` when it is not JSON. */
  datatype Answer = NoConnection | Answered(ok: bool, body: Option<Body>)

  /** The user handed to the session context, if `authLogin` was called. */
  datatype Session = NoSession | Session(user: Option<UserJson>)

  /** What the page ends with: the `token` entry of local storage, the
      session, the route navigated to, and the error shown ("" for none). */
  datatype Outcome = Outcome(stored: Option<string>, session: Session, route: Option<string>, error: string)

  const ConnectionError := "Error de conexión con el servidor"
  const BadResponse := "Error en la respuesta del servidor"
  const BadTipo := "Tipo de usuario no válido"
  const LoginFailed := "Error al iniciar sesión"
  const AdminRoute := "/admin/dashboard"

  /** `localStorage.setItem` stores `undefined` as the text "undefined". */
  function StoredText(token: Option<string>): string {
    match token {
      case None => "undefined"
      case Some(t) => t
    }
  }

  /** A route with a numeric id in it. */
  function IdRoute(prefix: string, id: int): string {
    prefix + IntToDecimal(id) + "/dashboard"
  }

  /** The `switch (data.user.tipo)`. Reading the restaurant of a manager
      without one throws, and the outer `catch` reports that as a connection
      error. */
  datatype Routing = Route(path: string) | UnknownTipo | Throws

  function RouteOf(u: UserJson): Routing {
    if u.tipo == "gerente" then
      match u.restaurante {
        case None => Throws
        case Some(r) => Route(IdRoute("/restaurante/", r.id))
      }
    else if u.tipo == "mesero" then Route(IdRoute("/mesero/", u.id))
    else if u.tipo == "cocina" then Route(IdRoute("/cocinero/", u.id))
    else if u.tipo == "admin" then Route(AdminRoute)
    else UnknownTipo
  }

  /** `handleSubmit` from the moment the request resolves. */
  function HandleLogin(answer: Answer): Outcome {
    match answer {
      case NoConnection => Outcome(None, NoSession, None, ConnectionError)
      case Answered(ok, body) =>
        match body {
          case None => Outcome(None, NoSession, None, BadResponse)
          case Some(b) =>
            if !ok then Outcome(None, NoSession, None, if b.message == "" then LoginFailed else b.message)
            else
              var stored := Some(StoredText(b.token));
              match b.user {
                case None => Outcome(stored, Session(None), None, ConnectionError)
                case Some(u) =>
                  match RouteOf(u) {
                    case Route(p) => Outcome(stored, Session(Some(u)), Some(p), "")
                    case UnknownTipo => Outcome(stored, Session(Some(u)), None, BadTipo)
                    case Throws => Outcome(stored, Session(Some(u)), None, ConnectionError)
                  }
              }
        }
    }
  }

  /** A body that is not JSON shows the response error and stores nothing;
      a token is stored exactly on an ok JSON answer, and a route is taken
      only after it is stored; a refused login shows the server's message,
      or the generic text when it gives none. */
  lemma HandleLoginSpec(answer: Answer)
    ensures var o := HandleLogin(answer);
      (answer.Answered? && answer.body.None? ==> o == Outcome(None, NoSession, None, BadResponse)) &&
      (o.stored.Some? <==> answer.Answered? && answer.ok && answer.body.Some?) &&
      (o.stored.Some? ==> o.stored.value == StoredText(answer.body.value.token)) &&
      (o.route.Some? ==> o.stored.Some? && o.error == "") &&
      (answer.Answered? && !answer.ok && answer.body.Some? ==>
        o.route.None? && o.error == (if answer.body.value.message == "" then LoginFailed else answer.body.value.message)) &&
      (answer.NoConnection? ==> o == Outcome(None, NoSession, None, ConnectionError))
  {
  }

  /** The routes by tag: a manager goes to their restaurant's dashboard, a
      waiter and a cook to their own, an administrator to the fixed one; any
      other tag is rejected. */
  lemma RouteOfSpec(u: UserJson)
    ensures u.tipo == "gerente" && u.restaurante.Some? ==> RouteOf(u) == Route("/restaurante/" + IntToDecimal(u.restaurante.value.id) + "/dashboard")
    ensures u.tipo == "gerente" && u.restaurante.None? ==> RouteOf(u) == Throws
    ensures u.tipo == "mesero" ==> RouteOf(u) == Route("/mesero/" + IntToDecimal(u.id) + "/dashboard")
    ensures u.tipo == "cocina" ==> RouteOf(u) == Route("/cocinero/" + IntToDecimal(u.id) + "/dashboard")
    ensures u.tipo == "admin" ==> RouteOf(u) == Route(AdminRoute)
    ensures RouteOf(u) == UnknownTipo <==> u.tipo !in {"gerente", "mesero", "cocina", "admin"}
  {
  }

  /** The id can be read back out of a route, so different users of the
      same kind are sent to different dashboards. */
  lemma IdRouteInjective(prefix: string, a: int, b: int)
    requires IdRoute(prefix, a) == IdRoute(prefix, b)
    ensures a == b
  {
    var ra := IdRoute(prefix, a);
    var da := IntToDecimal(a);
    var db := IntToDecimal(b);
    assert |da| == |db|;
    assert da == ra[|prefix|..|prefix| + |da|];
    assert db == ra[|prefix|..|prefix| + |db|];
    IntegerTextRoundTrip(a);
    IntegerTextRoundTrip(b);
  }

  // ---------------------------------------------------------------------
  // Against the login endpoint
  // ---------------------------------------------------------------------

  /** The user object of the endpoint's reply as JSON; an administrator's
      carries the tag `admin` and no restaurant. */
  function JsonOf(u: Auth.UserData): UserJson {
    match u {
      case StaffUser(id, tipo, _, _, r) => UserJson(id, tipo, Some(RestauranteJson(r.id)))
      case AdminUser(id, _, _, _) => UserJson(id, "admin", None)
    }
  }

  /** Every successful reply of the login endpoint leads somewhere: the
      token it returns is stored, and the page takes the route of the user's
      kind with no error, never the unknown-tag branch nor the throwing
      one. */
  lemma EndpointRepliesRoute(t: Store.Tables, req: Auth.LoginRequest, env: Auth.LoginEnv)
    requires |env.token| == 60
    ensures var reply := Auth.LoginSpec(t, req, env).1;
      reply.LoginOk? ==>
        var o := HandleLogin(Answered(true, Some(Body(Some(reply.token), Some(JsonOf(reply.user)), ""))));
        o.stored == Some(reply.token) && o.route.Some? && o.error == "" &&
        (reply.user.AdminUser? ==> o.route == Some(AdminRoute))
  {
    var reply := Auth.LoginSpec(t, req, env).1;
    Auth.LoginUserShape(t, req, env);
    if reply.LoginOk? {
      var p := Auth.FindPrincipal(t, req.correo.s).value;
      Auth.TipoTags(p);
    }
  }
}

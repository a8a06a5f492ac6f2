/** `ComensalController`: what a diner's device asks of the backend, always
    naming the table by the token of its QR code. The table is looked up by
    that token; requests for staff and orders append rows to `pedidos`,
    `detalle_pedido` and `atencion`. */
module Comensal {
  import opened Base
  import opened Gateway
  import opened Store
  import opened Validation

  // ---------------------------------------------------------------------
  // Resolving a table by its token
  // ---------------------------------------------------------------------

  /** The first table the `select` on `codigo_qr` returns. The controllers
      pass `'eq.' . $codigoQR`, and `select` strips exactly that prefix. */
  function MesaDeQr(t: Tables, codigoQr: string): Option<Mesa> {
    FirstOf(MesasByQr(t, StripEq("eq." + codigoQr)))
  }

  /** A token resolves exactly when some table carries it, and then to the
      first such table in the store. */
  lemma MesaDeQrFirst(t: Tables, codigoQr: string)
    ensures MesaDeQr(t, codigoQr).None? <==> forall i :: 0 <= i < |t.mesas| ==> t.mesas[i].codigoQr != codigoQr
    ensures MesaDeQr(t, codigoQr).Some? ==>
      exists i :: 0 <= i < |t.mesas| && MesaDeQr(t, codigoQr).value == t.mesas[i] &&
        t.mesas[i].codigoQr == codigoQr && forall j :: 0 <= j < i ==> t.mesas[j].codigoQr != codigoQr
  {
    assert StripEq("eq." + codigoQr) == codigoQr;
    var p := (m: Mesa) => m.codigoQr == codigoQr;
    if MesasByQr(t, codigoQr) != [] {
      FilterFirst(t.mesas, p);
    }
  }

  // ---------------------------------------------------------------------
  // validarQR and getMenuPorQR
  // ---------------------------------------------------------------------

  datatype QrReply =
    | QrNoValido                    // 404 'Código QR no válido', valido false
    | QrValido(numeroMesa: string)  // 200 'Código QR válido', valido true

  function QrStatus(r: QrReply): nat {
    if r.QrNoValido? then 404 else 200
  }

  function ValidarQr(t: Tables, codigoQr: string): QrReply {
    match MesaDeQr(t, codigoQr) {
      case None => QrNoValido
      case Some(mesa) => QrValido(mesa.numero)
    }
  }

  /** The token is valid exactly when a table carries it, and the number
      returned is that of the first such table. */
  lemma ValidarQrAnswers(t: Tables, codigoQr: string)
    ensures ValidarQr(t, codigoQr).QrValido? <==> exists i :: 0 <= i < |t.mesas| && t.mesas[i].codigoQr == codigoQr
    ensures QrStatus(ValidarQr(t, codigoQr)) == 404 <==> forall i :: 0 <= i < |t.mesas| ==> t.mesas[i].codigoQr != codigoQr
    ensures ValidarQr(t, codigoQr).QrValido? ==>
      exists i :: 0 <= i < |t.mesas| && t.mesas[i].codigoQr == codigoQr &&
        ValidarQr(t, codigoQr).numeroMesa == t.mesas[i].numero &&
        forall j :: 0 <= j < i ==> t.mesas[j].codigoQr != codigoQr
  {
    MesaDeQrFirst(t, codigoQr);
  }

  datatype MenuReply =
    | MenuNoValido                                                          // 404
    | MenuDeMesa(mesa: Mesa, restaurante: Option<Restaurante>, menu: seq<Dish>)  // 200

  function GetMenuPorQr(t: Tables, codigoQr: string): MenuReply {
    match MesaDeQr(t, codigoQr) {
      case None => MenuNoValido
      case Some(mesa) =>
        var idRestaurante := mesa.idRestaurante;
        MenuDeMesa(mesa, FirstOf(RestaurantesById(t, idRestaurante)), MenuOf(t, idRestaurante))
    }
  }

  /** The menu returned is exactly the dishes of the table's restaurant, and
      the restaurant, when present, is that restaurant. */
  lemma GetMenuScoped(t: Tables, codigoQr: string)
    ensures var r := GetMenuPorQr(t, codigoQr);
      r.MenuDeMesa? ==>
        (forall k :: 0 <= k < |r.menu| ==> r.menu[k] in t.menu && r.menu[k].idRestaurante == r.mesa.idRestaurante) &&
        (forall k :: 0 <= k < |t.menu| && t.menu[k].idRestaurante == r.mesa.idRestaurante ==> t.menu[k] in r.menu) &&
        (r.restaurante.Some? <==> exists k :: 0 <= k < |t.restaurantes| && t.restaurantes[k].id == r.mesa.idRestaurante) &&
        (r.restaurante.Some? ==> r.restaurante.value.id == r.mesa.idRestaurante && r.restaurante.value in t.restaurantes)
    ensures GetMenuPorQr(t, codigoQr).MenuDeMesa? <==> ValidarQr(t, codigoQr).QrValido?
  {
  }

  // ---------------------------------------------------------------------
  // registrarPedido
  // ---------------------------------------------------------------------

  /** One line of the submitted order; a field is `None` when its key is
      absent. The price is in cents. */
  datatype PedidoItem = PedidoItem(idMenu: Option<nat>, cantidad: Option<int>, precio: Option<int>)

  /** `codigo_qr`, `pedido` (`None` when absent) and `total` (in cents). */
  datatype PedidoRequest = PedidoRequest(codigoQr: string, pedido: Option<seq<PedidoItem>>, total: int)

  /** The clock reading, and how the service answers: whether it accepts the
      order, whether its representation carries the new id, and whether it
      accepts the detail rows and the notice. */
  datatype PedidoEnv = PedidoEnv(now: string, pedidoOk: bool, pedidoEchoed: bool, detallesOk: bool, atencionOk: bool)

  datatype PedidoReply =
    | MesaNoEncontrada                    // 404 'Mesa no encontrada'
    | PedidoRegistrado(idPedido: Option<nat>)  // 200 'Pedido registrado correctamente'
    | PedidoError                         // 500 'Error al registrar pedido'

  function PedidoStatus(r: PedidoReply): nat {
    match r {
      case MesaNoEncontrada => 404
      case PedidoRegistrado(_) => 200
      case PedidoError => 500
    }
  }

  /** The order row: pending, for the table's restaurant, with the total the
      client sent and the table's id in its `numero_mesa` column. */
  function NuevoPedido(mesa: Mesa, total: int, now: string): Pedido {
    Pedido(0, mesa.idRestaurante, now, "Pendiente", total, mesa.id)
  }

  /** The notice for the kitchen. */
  function AvisoDePedido(mesa: Mesa, now: string): Atencion {
    Atencion(0, "Nuevo pedido", now, "Pendiente", mesa.id, None, None)
  }

  /** Reading `id_menu`, `cantidad` or `precio` of a line that lacks it raises
      an error. */
  predicate ItemComplete(item: PedidoItem) {
    item.idMenu.Some? && item.cantidad.Some? && item.precio.Some?
  }

  function DetalleRow(idPedido: nat, item: PedidoItem): Detalle
    requires ItemComplete(item)
  {
    Detalle(0, idPedido, item.idMenu.value, item.cantidad.value, item.precio.value)
  }

  /** The rows the `foreach ($pedido as $item)` loop collects, or `None` when
      it throws: on a missing `pedido` or an incomplete line. */
  function DetalleRows(idPedido: nat, pedido: Option<seq<PedidoItem>>): (r: Option<seq<Detalle>>)
    ensures r.Some? <==> pedido.Some? && forall k :: 0 <= k < |pedido.value| ==> ItemComplete(pedido.value[k])
    ensures r.Some? ==> |r.value| == |pedido.value|
    ensures r.Some? ==> forall k :: 0 <= k < |pedido.value| ==> r.value[k] == DetalleRow(idPedido, pedido.value[k])
  {
    match pedido {
      case None => None
      case Some(items) =>
        if forall k :: 0 <= k < |items| ==> ItemComplete(items[k]) then
          Some(seq(|items|, k requires 0 <= k < |items| => DetalleRow(idPedido, items[k])))
        else None
    }
  }

  method BuildDetalles(idPedido: nat, pedido: Option<seq<PedidoItem>>) returns (r: Option<seq<Detalle>>)
    ensures r == DetalleRows(idPedido, pedido)
  {
    if pedido.None? {
      return None;
    }
    var items := pedido.value;
    var detalles: seq<Detalle> := [];
    for k := 0 to |items|
      invariant |detalles| == k
      invariant forall j :: 0 <= j < k ==> ItemComplete(items[j]) && detalles[j] == DetalleRow(idPedido, items[j])
    {
      var item := items[k];
      if !ItemComplete(item) {
        assert !ItemComplete(items[k]);
        assert DetalleRows(idPedido, pedido).None?;
        return None;
      }
      detalles := detalles + [Detalle(0, idPedido, item.idMenu.value, item.cantidad.value, item.precio.value)];
    }
    var expected := DetalleRows(idPedido, pedido);
    assert expected.Some?;
    assert forall k :: 0 <= k < |items| ==> detalles[k] == expected.value[k];
    assert detalles == expected.value;
    r := Some(detalles);
  }

  /** The database after `registrarPedido`, and its reply. */
  function RegistrarPedidoSpec(t: Tables, req: PedidoRequest, env: PedidoEnv): (Tables, PedidoReply) {
    match MesaDeQr(t, req.codigoQr) {
      case None => (t, MesaNoEncontrada)
      case Some(mesa) =>
        if !env.pedidoOk then (t, PedidoError)
        else
          var t1 := InsertPedido(t, NuevoPedido(mesa, req.total, env.now));
          var idPedido: Option<nat> := if env.pedidoEchoed then Some(t.nextId) else None;
          var detalles := if idPedido.Some? && idPedido.value != 0 then DetalleRows(idPedido.value, req.pedido) else Some([]);
          match detalles {
            case None => (t1, PedidoError)
            case Some(rows) =>
              var t2 := if rows != [] && env.detallesOk then InsertDetalles(t1, rows) else t1;
              var t3 := if env.atencionOk then InsertAtencion(t2, AvisoDePedido(mesa, env.now)) else t2;
              (t3, PedidoRegistrado(idPedido))
          }
    }
  }

  method RegistrarPedido(db: Db, req: PedidoRequest, env: PedidoEnv) returns (reply: PedidoReply)
    modifies db
    ensures (db.Snapshot(), reply) == RegistrarPedidoSpec(old(db.Snapshot()), req, env)
  {
    var mesa := MesaDeQr(db.Snapshot(), req.codigoQr);
    if mesa.None? {
      return MesaNoEncontrada;
    }
    var pedidoCreado := db.PostPedido(NuevoPedido(mesa.value, req.total, env.now), env.pedidoOk);
    if pedidoCreado.None? {
      return PedidoError;
    }
    var idPedido: Option<nat> := if env.pedidoEchoed then Some(pedidoCreado.value.id) else None;
    if idPedido.Some? && idPedido.value != 0 {
      var detalles := BuildDetalles(idPedido.value, req.pedido);
      if detalles.None? {
        return PedidoError;
      }
      if detalles.value != [] {
        db.PostDetalles(detalles.value, env.detallesOk);
      }
    }
    db.PostAtencion(AvisoDePedido(mesa.value, env.now), env.atencionOk);
    reply := PedidoRegistrado(idPedido);
  }

  // ---------------------------------------------------------------------
  // solicitarMesero and solicitarCuenta
  // ---------------------------------------------------------------------

  datatype AvisoReply =
    | AvisoSinMesa  // 404 'Mesa no encontrada'
    | AvisoEnviado  // 200 'Mesero notificado' / 'Solicitud de pago enviada'

  function AvisoStatus(r: AvisoReply): nat {
    if r.AvisoSinMesa? then 404 else 200
  }

  /** A pending request for the table; the insert's outcome is ignored. */
  function AnotarAviso(t: Tables, codigoQr: string, tipo: string, notas: Option<string>, now: string, ok: bool): (Tables, AvisoReply) {
    match MesaDeQr(t, codigoQr) {
      case None => (t, AvisoSinMesa)
      case Some(mesa) =>
        (if ok then InsertAtencion(t, Atencion(0, tipo, now, "Pendiente", mesa.id, notas, None)) else t, AvisoEnviado)
    }
  }

  function SolicitarMeseroSpec(t: Tables, codigoQr: string, now: string, ok: bool): (Tables, AvisoReply) {
    AnotarAviso(t, codigoQr, "Solicitar mesero", None, now, ok)
  }

  /** `tipo_solicitud` is `Pagar - <metodo_pago>` and `notas` is
      `Total: $<total>`. */
  function SolicitarCuentaSpec(t: Tables, codigoQr: string, metodoPago: Value, total: Value, now: string, ok: bool): (Tables, AvisoReply) {
    AnotarAviso(t, codigoQr, "Pagar - " + Render(metodoPago), Some("Total: $" + Render(total)), now, ok)
  }

  method SolicitarMesero(db: Db, codigoQr: string, now: string, ok: bool) returns (reply: AvisoReply)
    modifies db
    ensures (db.Snapshot(), reply) == SolicitarMeseroSpec(old(db.Snapshot()), codigoQr, now, ok)
  {
    var mesa := MesaDeQr(db.Snapshot(), codigoQr);
    if mesa.None? {
      return AvisoSinMesa;
    }
    db.PostAtencion(Atencion(0, "Solicitar mesero", now, "Pendiente", mesa.value.id, None, None), ok);
    reply := AvisoEnviado;
  }

  method SolicitarCuenta(db: Db, codigoQr: string, metodoPago: Value, total: Value, now: string, ok: bool)
    returns (reply: AvisoReply)
    modifies db
    ensures (db.Snapshot(), reply) == SolicitarCuentaSpec(old(db.Snapshot()), codigoQr, metodoPago, total, now, ok)
  {
    var mesa := MesaDeQr(db.Snapshot(), codigoQr);
    if mesa.None? {
      return AvisoSinMesa;
    }
    var tipo := "Pagar - " + Render(metodoPago);
    db.PostAtencion(Atencion(0, tipo, now, "Pendiente", mesa.value.id, Some("Total: $" + Render(total)), None), ok);
    reply := AvisoEnviado;
  }

  // ---------------------------------------------------------------------
  // What the diner's requests do to the store
  // ---------------------------------------------------------------------

  /** An unknown token gets 404 from every write endpoint, and nothing is
      written. */
  lemma UnknownQrWritesNothing(t: Tables, req: PedidoRequest, env: PedidoEnv, metodoPago: Value, total: Value,
                               now: string, ok: bool)
    requires forall i :: 0 <= i < |t.mesas| ==> t.mesas[i].codigoQr != req.codigoQr
    ensures RegistrarPedidoSpec(t, req, env) == (t, MesaNoEncontrada)
    ensures PedidoStatus(RegistrarPedidoSpec(t, req, env).1) == 404
    ensures SolicitarMeseroSpec(t, req.codigoQr, now, ok) == (t, AvisoSinMesa)
    ensures SolicitarCuentaSpec(t, req.codigoQr, metodoPago, total, now, ok) == (t, AvisoSinMesa)
  {
    MesaDeQrFirst(t, req.codigoQr);
  }

  /** Whatever happens after the order is accepted, exactly one order row
      is added: pending, for the table's restaurant, holding the client's
      total and the table's id. */
  lemma PedidoRowWritten(t: Tables, req: PedidoRequest, env: PedidoEnv)
    requires MesaDeQr(t, req.codigoQr).Some? && env.pedidoOk
    ensures var mesa := MesaDeQr(t, req.codigoQr).value;
      var t' := RegistrarPedidoSpec(t, req, env).0;
      t'.pedidos == t.pedidos + [Pedido(t.nextId, mesa.idRestaurante, env.now, "Pendiente", req.total, mesa.id)] &&
      mesa.codigoQr == req.codigoQr
  {
    MesaDeQrFirst(t, req.codigoQr);
  }

  /** With an id echoed back and complete lines, one detail row per line is
      added, in order, copying the dish, the quantity and the price. */
  lemma DetallesWritten(t: Tables, req: PedidoRequest, env: PedidoEnv)
    requires MesaDeQr(t, req.codigoQr).Some? && env.pedidoOk && env.pedidoEchoed && env.detallesOk && t.nextId != 0
    requires req.pedido.Some? && forall k :: 0 <= k < |req.pedido.value| ==> ItemComplete(req.pedido.value[k])
    ensures var (t', reply) := RegistrarPedidoSpec(t, req, env);
      var items := req.pedido.value;
      reply == PedidoRegistrado(Some(t.nextId)) &&
      |t'.detalles| == |t.detalles| + |items| &&
      forall k :: 0 <= k < |items| ==>
        t'.detalles[|t.detalles| + k].idPedido == t.nextId &&
        Some(t'.detalles[|t.detalles| + k].idMenu) == items[k].idMenu &&
        Some(t'.detalles[|t.detalles| + k].cantidad) == items[k].cantidad &&
        Some(t'.detalles[|t.detalles| + k].precioUnitario) == items[k].precio
  {
    var items := req.pedido.value;
    var rows := DetalleRows(t.nextId, req.pedido).value;
    var t' := RegistrarPedidoSpec(t, req, env).0;
    if rows != [] {
      var t1 := InsertPedido(t, NuevoPedido(MesaDeQr(t, req.codigoQr).value, req.total, env.now));
      assert t'.detalles == t.detalles + StampDetalles(rows, t1.nextId);
      forall k | 0 <= k < |items|
        ensures t'.detalles[|t.detalles| + k] == DetalleRow(t.nextId, items[k]).(id := t1.nextId + k)
      {
        assert t'.detalles[|t.detalles| + k] == StampDetalles(rows, t1.nextId)[k];
      }
    }
  }

  /** No detail row is written when no usable order id comes back or the
      order has no lines. */
  lemma NoDetallesWithoutId(t: Tables, req: PedidoRequest, env: PedidoEnv)
    requires !env.pedidoEchoed || t.nextId == 0 || req.pedido == Some([])
    ensures RegistrarPedidoSpec(t, req, env).0.detalles == t.detalles
  {
  }

  /** Once the order is registered, the kitchen notice is the last row
      appended, whether or not detail rows were written. */
  lemma AvisoAfterPedido(t: Tables, req: PedidoRequest, env: PedidoEnv)
    requires env.atencionOk
    ensures var (t', reply) := RegistrarPedidoSpec(t, req, env);
      reply.PedidoRegistrado? ==>
        var mesa := MesaDeQr(t, req.codigoQr).value;
        t'.atenciones == t.atenciones + [AvisoDePedido(mesa, env.now).(id := t'.nextId - 1)]
  {
  }

  /** Calling a waiter twice appends two pending requests: nothing is
      merged. */
  lemma SolicitarMeseroTwice(t: Tables, codigoQr: string, now1: string, now2: string)
    requires MesaDeQr(t, codigoQr).Some?
    ensures var t1 := SolicitarMeseroSpec(t, codigoQr, now1, true).0;
      var t2 := SolicitarMeseroSpec(t1, codigoQr, now2, true).0;
      var id := MesaDeQr(t, codigoQr).value.id;
      t2.atenciones == t.atenciones + [Atencion(t.nextId, "Solicitar mesero", now1, "Pendiente", id, None, None),
                                       Atencion(t.nextId + 1, "Solicitar mesero", now2, "Pendiente", id, None, None)]
  {
    var t1 := SolicitarMeseroSpec(t, codigoQr, now1, true).0;
    assert t1.mesas == t.mesas;
    assert MesaDeQr(t1, codigoQr) == MesaDeQr(t, codigoQr);
  }

  /** The bill request names the payment method and carries the total. */
  lemma SolicitarCuentaRow(t: Tables, codigoQr: string, metodoPago: Value, total: Value, now: string)
    requires MesaDeQr(t, codigoQr).Some?
    ensures var t' := SolicitarCuentaSpec(t, codigoQr, metodoPago, total, now, true).0;
      |t'.atenciones| == |t.atenciones| + 1 &&
      t'.atenciones[|t.atenciones|].tipo == "Pagar - " + Render(metodoPago) &&
      t'.atenciones[|t.atenciones|].notas == Some("Total: $" + Render(total)) &&
      t'.atenciones[|t.atenciones|].estado == "Pendiente" &&
      t'.atenciones[|t.atenciones|].idMesa == MesaDeQr(t, codigoQr).value.id
  {
  }
}

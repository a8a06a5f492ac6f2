/** The diner's order on the menu screen (`MenuComensal`): a list of lines,
    one per dish, each carrying the dish as the menu listed it and a
    quantity. Prices are in cents. */
module Cart {
  import opened Base
  import opened Text
  import Comensal

  /** A dish as the menu lists it; `categoria` is "" when the row has none
      (null, absent or empty are all falsy to the page). */
  datatype Platillo = Platillo(idMenu: nat, nombre: string, precio: int, categoria: string)

  /** `{ ...platillo, cantidad }`. */
  datatype Linea = Linea(platillo: Platillo, cantidad: int)

  type Pedido = seq<Linea>

  function Id(l: Linea): nat { l.platillo.idMenu }

  /** The dishes the order has a line for. */
  function Ids(s: Pedido): set<nat> {
    if s == [] then {} else {Id(s[0])} + Ids(s[1..])
  }

  /** How many of dish `id` the order holds, over all its lines. */
  function Cantidad(s: Pedido, id: nat): int {
    if s == [] then 0 else (if Id(s[0]) == id then s[0].cantidad else 0) + Cantidad(s[1..], id)
  }

  /** The sum of `precio × cantidad` over the lines. */
  function Total(s: Pedido): int {
    if s == [] then 0 else s[0].platillo.precio * s[0].cantidad + Total(s[1..])
  }

  /** At most one line per dish. */
  predicate OneLinePerDish(s: Pedido) {
    forall i, j :: 0 <= i < j < |s| ==> Id(s[i]) != Id(s[j])
  }

  /** Every line asks for at least one. */
  predicate Positive(s: Pedido) {
    forall l :: l in s ==> l.cantidad >= 1
  }

  /** The dishes of the order are those of the lines at its positions. */
  lemma {:induction false} IdsAt(s: Pedido, id: nat)
    ensures id in Ids(s) <==> exists k :: 0 <= k < |s| && Id(s[k]) == id
  {
    if s != [] {
      IdsAt(s[1..], id);
      if id in Ids(s[1..]) {
        var k :| 0 <= k < |s[1..]| && Id(s[1..][k]) == id;
        assert Id(s[k + 1]) == id;
      }
      if exists k :: 0 <= k < |s| && Id(s[k]) == id {
        var k :| 0 <= k < |s| && Id(s[k]) == id;
        if k > 0 {
          assert Id(s[1..][k - 1]) == id;
        }
      }
    }
  }

  /** An order without dish `id` holds none of it. */
  lemma {:induction false} CantidadAbsent(s: Pedido, id: nat)
    requires id !in Ids(s)
    ensures Cantidad(s, id) == 0
  {
    if s != [] {
      CantidadAbsent(s[1..], id);
    }
  }

  /** The first line's dish appears nowhere else in an order with one line
      per dish. */
  lemma HeadUnique(s: Pedido)
    requires s != [] && OneLinePerDish(s)
    ensures Id(s[0]) !in Ids(s[1..]) && OneLinePerDish(s[1..])
  {
    forall k | 0 <= k < |s[1..]| ensures Id(s[1..][k]) != Id(s[0]) {
      assert s[1..][k] == s[k + 1];
    }
    IdsAt(s[1..], Id(s[0]));
    forall i, j | 0 <= i < j < |s[1..]| ensures Id(s[1..][i]) != Id(s[1..][j]) {
      assert s[1..][i] == s[i + 1] && s[1..][j] == s[j + 1];
    }
  }

  /** The total of two orders put together is the sum of their totals. */
  lemma {:induction false} TotalAppend(a: Pedido, b: Pedido)
    ensures Total(a + b) == Total(a) + Total(b)
  {
    if a != [] {
      assert (a + b)[0] == a[0] && (a + b)[1..] == a[1..] + b;
      TotalAppend(a[1..], b);
      assert Total(a + b) == a[0].platillo.precio * a[0].cantidad + Total(a[1..] + b);
    } else {
      assert a + b == b;
    }
  }

  lemma {:induction false} CantidadAppend(a: Pedido, b: Pedido, id: nat)
    ensures Cantidad(a + b, id) == Cantidad(a, id) + Cantidad(b, id)
  {
    if a != [] {
      assert (a + b)[0] == a[0] && (a + b)[1..] == a[1..] + b;
      CantidadAppend(a[1..], b, id);
      assert Cantidad(a + b, id) == (if Id(a[0]) == id then a[0].cantidad else 0) + Cantidad(a[1..] + b, id);
    } else {
      assert a + b == b;
    }
  }

  lemma {:induction false} IdsAppend(a: Pedido, b: Pedido)
    ensures Ids(a + b) == Ids(a) + Ids(b)
  {
    if a != [] {
      assert (a + b)[0] == a[0] && (a + b)[1..] == a[1..] + b;
      IdsAppend(a[1..], b);
      assert Ids(a + b) == {Id(a[0])} + Ids(a[1..] + b);
    } else {
      assert a + b == b;
    }
  }

  /** Lines with the same dishes at the same positions name the same
      dishes. */
  lemma {:induction false} SameDishesIds(a: Pedido, b: Pedido)
    requires |a| == |b| && forall k :: 0 <= k < |a| ==> a[k].platillo == b[k].platillo
    ensures Ids(a) == Ids(b)
    ensures OneLinePerDish(a) ==> OneLinePerDish(b)
  {
    if a != [] {
      SameDishesIds(a[1..], b[1..]);
    }
    if OneLinePerDish(a) {
      forall i, j | 0 <= i < j < |b| ensures Id(b[i]) != Id(b[j]) {
        assert Id(a[i]) != Id(a[j]);
      }
    }
  }

  // ---------------------------------------------------------------------
  // agregarAlPedido
  // ---------------------------------------------------------------------

  /** `pedido.map(p => p.id_menu === id ? { ...p, cantidad: p.cantidad + 1 } : p)`. */
  function Incrementar(s: Pedido, id: nat): (r: Pedido)
    ensures |r| == |s|
    ensures forall k :: 0 <= k < |s| ==> r[k].platillo == s[k].platillo
  {
    if s == [] then []
    else [if Id(s[0]) == id then s[0].(cantidad := s[0].cantidad + 1) else s[0]] + Incrementar(s[1..], id)
  }

  /** `agregarAlPedido`: one more of a dish already in the order, or a new
      line with quantity 1 at the end. */
  function Agregar(s: Pedido, p: Platillo): Pedido {
    if p.idMenu in Ids(s) then Incrementar(s, p.idMenu) else s + [Linea(p, 1)]
  }

  /** In an order with one line per dish, incrementing dish `id` adds one to
      its quantity and to no other, and keeps quantities positive. */
  lemma {:induction false} IncrementarCantidad(s: Pedido, id: nat, x: nat)
    requires OneLinePerDish(s) && id in Ids(s)
    ensures Cantidad(Incrementar(s, id), x) == Cantidad(s, x) + (if x == id then 1 else 0)
  {
    HeadUnique(s);
    if Id(s[0]) == id {
      IncrementarAbsent(s[1..], id);
    } else {
      IncrementarCantidad(s[1..], id, x);
    }
  }

  /** Incrementing a dish the order does not hold changes nothing. */
  lemma {:induction false} IncrementarAbsent(s: Pedido, id: nat)
    requires id !in Ids(s)
    ensures Incrementar(s, id) == s
  {
    if s != [] {
      IncrementarAbsent(s[1..], id);
    }
  }

  lemma {:induction false} IncrementarPositive(s: Pedido, id: nat)
    requires Positive(s)
    ensures Positive(Incrementar(s, id))
  {
    if s != [] {
      IncrementarPositive(s[1..], id);
    }
  }

  /** When dish `id`'s lines carry price `precio`, incrementing it in an
      order with one line per dish raises the total by `precio`. */
  lemma {:induction false} IncrementarTotal(s: Pedido, id: nat, precio: int)
    requires OneLinePerDish(s) && id in Ids(s)
    requires forall l :: l in s && Id(l) == id ==> l.platillo.precio == precio
    ensures Total(Incrementar(s, id)) == Total(s) + precio
  {
    HeadUnique(s);
    if Id(s[0]) == id {
      IncrementarAbsent(s[1..], id);
    } else {
      IncrementarTotal(s[1..], id, precio);
    }
  }

  /** Adding a dish: if it was there, the length is unchanged; if not, it is
      appended last with quantity 1. Either way its quantity goes up by one
      and no other dish's changes, the dishes are the old ones plus this one,
      there stays one line per dish, quantities stay positive, and the total
      rises by the dish's price when its line was taken from the same menu
      row. */
  lemma AgregarSpec(s: Pedido, p: Platillo)
    requires OneLinePerDish(s) && Positive(s)
    ensures var r := Agregar(s, p);
      (p.idMenu in Ids(s) ==> |r| == |s|) &&
      (p.idMenu !in Ids(s) ==> r == s + [Linea(p, 1)]) &&
      (forall x :: Cantidad(r, x) == Cantidad(s, x) + (if x == p.idMenu then 1 else 0)) &&
      Ids(r) == Ids(s) + {p.idMenu} &&
      OneLinePerDish(r) && Positive(r) &&
      ((forall l :: l in s && Id(l) == p.idMenu ==> l.platillo == p) ==> Total(r) == Total(s) + p.precio)
  {
    var r := Agregar(s, p);
    if p.idMenu in Ids(s) {
      forall x ensures Cantidad(r, x) == Cantidad(s, x) + (if x == p.idMenu then 1 else 0) {
        IncrementarCantidad(s, p.idMenu, x);
      }
      SameDishesIds(s, r);
      IncrementarPositive(s, p.idMenu);
      if forall l :: l in s && Id(l) == p.idMenu ==> l.platillo == p {
        IncrementarTotal(s, p.idMenu, p.precio);
      }
    } else {
      var n := [Linea(p, 1)];
      forall x ensures Cantidad(r, x) == Cantidad(s, x) + (if x == p.idMenu then 1 else 0) {
        CantidadAppend(s, n, x);
      }
      IdsAppend(s, n);
      TotalAppend(s, n);
      IdsAt(s, p.idMenu);
      forall i, j | 0 <= i < j < |r| ensures Id(r[i]) != Id(r[j]) {
        if j == |s| {
          assert r[i] == s[i];
        }
      }
    }
  }

  // ---------------------------------------------------------------------
  // modificarCantidad
  // ---------------------------------------------------------------------

  /** The `map` step of `modificarCantidad`: dish `id` moves by `cambio`
      unless that would leave it at zero or below. */
  function Ajustar(s: Pedido, id: nat, cambio: int): (r: Pedido)
    ensures |r| == |s|
    ensures forall k :: 0 <= k < |s| ==> r[k].platillo == s[k].platillo
  {
    if s == [] then []
    else
      var l := s[0];
      [if Id(l) == id && l.cantidad + cambio > 0 then l.(cantidad := l.cantidad + cambio) else l] + Ajustar(s[1..], id, cambio)
  }

  predicate Vigente(l: Linea) { l.cantidad > 0 }

  /** `modificarCantidad`: adjust, then drop the lines left at zero or below. */
  function Modificar(s: Pedido, id: nat, cambio: int): Pedido {
    Filter(Ajustar(s, id, cambio), Vigente)
  }

  lemma {:induction false} AjustarCantidad(s: Pedido, id: nat, cambio: int, x: nat)
    requires OneLinePerDish(s)
    ensures Cantidad(Ajustar(s, id, cambio), x) ==
      if x == id && id in Ids(s) && Cantidad(s, id) + cambio > 0 then Cantidad(s, x) + cambio else Cantidad(s, x)
  {
    if s != [] {
      HeadUnique(s);
      AjustarCantidad(s[1..], id, cambio, x);
      if Id(s[0]) == id {
        CantidadAbsent(s[1..], id);
      }
    }
  }

  lemma {:induction false} AjustarPositive(s: Pedido, id: nat, cambio: int)
    requires Positive(s)
    ensures Positive(Ajustar(s, id, cambio))
  {
    if s != [] {
      AjustarPositive(s[1..], id, cambio);
    }
  }

  /** On an order whose quantities are positive, changing a quantity drops
      no line: the dishes and their positions stay, only dish `id`'s
      quantity moves, and it moves by `cambio` exactly when the result stays
      positive; otherwise the line is left as it was. */
  lemma ModificarSpec(s: Pedido, id: nat, cambio: int)
    requires OneLinePerDish(s) && Positive(s)
    ensures var r := Modificar(s, id, cambio);
      |r| == |s| && (forall k :: 0 <= k < |s| ==> r[k].platillo == s[k].platillo) &&
      Positive(r) && OneLinePerDish(r) && Ids(r) == Ids(s) &&
      (forall x :: x != id ==> Cantidad(r, x) == Cantidad(s, x)) &&
      Cantidad(r, id) == (if id in Ids(s) && Cantidad(s, id) + cambio > 0 then Cantidad(s, id) + cambio else Cantidad(s, id))
  {
    var a := Ajustar(s, id, cambio);
    AjustarPositive(s, id, cambio);
    forall k | 0 <= k < |a| ensures Vigente(a[k]) {
      assert a[k] in a;
    }
    FilterAll(a, Vigente);
    SameDishesIds(s, a);
    forall x ensures Cantidad(a, x) == if x == id && id in Ids(s) && Cantidad(s, id) + cambio > 0 then Cantidad(s, x) + cambio else Cantidad(s, x) {
      AjustarCantidad(s, id, cambio, x);
    }
  }

  // ---------------------------------------------------------------------
  // eliminarDelPedido
  // ---------------------------------------------------------------------

  /** `eliminarDelPedido`: every line of dish `id` goes. */
  function Eliminar(s: Pedido, id: nat): Pedido {
    Filter(s, (l: Linea) => Id(l) != id)
  }

  /** The lines of dish `id`. */
  function LineasDe(s: Pedido, id: nat): Pedido {
    Filter(s, (l: Linea) => Id(l) == id)
  }

  lemma {:induction false} FilterKeepsOneLine(s: Pedido, p: Linea -> bool)
    requires OneLinePerDish(s)
    ensures OneLinePerDish(Filter(s, p))
  {
    if s != [] {
      HeadUnique(s);
      FilterKeepsOneLine(s[1..], p);
      var f := Filter(s[1..], p);
      if p(s[0]) {
        var r := [s[0]] + f;
        IdsAt(s[1..], Id(s[0]));
        forall i, j | 0 <= i < j < |r| ensures Id(r[i]) != Id(r[j]) {
          if i == 0 {
            assert r[j] == f[j - 1] && f[j - 1] in s[1..];
          } else {
            assert r[i] == f[i - 1] && r[j] == f[j - 1];
          }
        }
      }
    }
  }

  lemma {:induction false} EliminarSplitsTotal(s: Pedido, id: nat)
    ensures Total(s) == Total(Eliminar(s, id)) + Total(LineasDe(s, id))
    ensures Cantidad(Eliminar(s, id), id) == 0
    ensures forall x :: x != id ==> Cantidad(Eliminar(s, id), x) == Cantidad(s, x)
  {
    if s != [] {
      EliminarSplitsTotal(s[1..], id);
      var rest := Eliminar(s[1..], id);
      var mine := LineasDe(s[1..], id);
      if Id(s[0]) == id {
        assert Eliminar(s, id) == rest;
        assert LineasDe(s, id) == [s[0]] + mine;
      } else {
        assert Eliminar(s, id) == [s[0]] + rest;
        assert LineasDe(s, id) == mine;
      }
    }
  }

  /** Removing a dish: the lines kept are exactly the other dishes' lines,
      in their order (the removal distributes over concatenation); none of
      dish `id` is left and other dishes' quantities are unchanged; the total
      falls by exactly the removed lines' amount; one line per dish and
      positive quantities are kept, and removing an absent dish changes
      nothing. */
  lemma EliminarSpec(s: Pedido, id: nat, a: Pedido, b: Pedido)
    ensures var r := Eliminar(s, id);
      (forall l :: l in r <==> l in s && Id(l) != id) &&
      id !in Ids(r) &&
      Eliminar(a + b, id) == Eliminar(a, id) + Eliminar(b, id) &&
      Cantidad(r, id) == 0 && (forall x :: x != id ==> Cantidad(r, x) == Cantidad(s, x)) &&
      Total(s) == Total(r) + Total(LineasDe(s, id)) &&
      (OneLinePerDish(s) ==> OneLinePerDish(r)) &&
      (Positive(s) ==> Positive(r)) &&
      (id !in Ids(s) ==> r == s)
  {
    var r := Eliminar(s, id);
    EliminarSplitsTotal(s, id);
    FilterAppend(a, b, (l: Linea) => Id(l) != id);
    IdsAt(r, id);
    if OneLinePerDish(s) {
      FilterKeepsOneLine(s, (l: Linea) => Id(l) != id);
    }
    if id !in Ids(s) {
      IdsAt(s, id);
      FilterAll(s, (l: Linea) => Id(l) != id);
    }
  }

  // ---------------------------------------------------------------------
  // calcularTotal and enviarPedido
  // ---------------------------------------------------------------------

  /** `calcularTotal`: the total written with two decimals. */
  function CalcularTotal(s: Pedido): string {
    FormatCents(Total(s))
  }

  /** The total text reads back as the order's total, and the empty order's
      is `0.00`. */
  lemma CalcularTotalReadsBack(s: Pedido)
    ensures ParseCents(CalcularTotal(s)) == Some(Total(s))
    ensures s == [] ==> CalcularTotal(s) == "0.00"
  {
    FormatCentsRoundTrip(Total(s));
  }

  /** How the send ends: accepted, refused, or the request failing. */
  datatype Respuesta = Aceptado | Rechazado | SinConexion

  /** The JSON body: `codigo_qr`, the lines and the total text. */
  datatype CuerpoPedido = CuerpoPedido(codigoQr: string, pedido: Pedido, total: string)

  /** The order afterwards, the body sent (if any) and the alert shown. */
  datatype Envio = Envio(pedido: Pedido, enviado: Option<CuerpoPedido>, aviso: string)

  /** `enviarPedido`. */
  function EnviarPedido(s: Pedido, codigoQr: string, respuesta: Respuesta): Envio {
    if s == [] then Envio(s, None, "Agrega platillos a tu pedido")
    else
      var cuerpo := Some(CuerpoPedido(codigoQr, s, CalcularTotal(s)));
      match respuesta {
        case Aceptado => Envio([], cuerpo, "¡Pedido enviado! El cocinero lo está preparando.")
        case _ => Envio(s, cuerpo, "Error al enviar el pedido")
      }
  }

  /** Nothing is sent for an empty order; otherwise the body carries the QR
      code, the order and a total that reads back as the order's total. The
      order is cleared exactly when the send is accepted, and kept
      otherwise. */
  lemma EnviarPedidoSpec(s: Pedido, codigoQr: string, respuesta: Respuesta)
    ensures var e := EnviarPedido(s, codigoQr, respuesta);
      (e.enviado.None? <==> s == []) &&
      (e.enviado.Some? ==> e.enviado.value.codigoQr == codigoQr && e.enviado.value.pedido == s &&
                           ParseCents(e.enviado.value.total) == Some(Total(s))) &&
      (s != [] && respuesta.Aceptado? ==> e.pedido == []) &&
      (s == [] || !respuesta.Aceptado? ==> e.pedido == s)
  {
    CalcularTotalReadsBack(s);
  }

  /** The lines as the order endpoint reads them. */
  function AsItems(s: Pedido): (r: seq<Comensal.PedidoItem>)
    ensures |r| == |s|
    ensures forall k :: 0 <= k < |s| ==>
      r[k] == Comensal.PedidoItem(Some(Id(s[k])), Some(s[k].cantidad), Some(s[k].platillo.precio))
  {
    seq(|s|, k requires 0 <= k < |s| => Comensal.PedidoItem(Some(Id(s[k])), Some(s[k].cantidad), Some(s[k].platillo.precio)))
  }

  /** Every line the page sends carries the dish, the quantity and the
      price, so the order endpoint builds one detail row per line and none
      of its reads of a line fails. */
  lemma SentLinesComplete(s: Pedido, codigoQr: string, respuesta: Respuesta, idPedido: nat)
    requires s != []
    ensures var e := EnviarPedido(s, codigoQr, respuesta);
      var rows := Comensal.DetalleRows(idPedido, Some(AsItems(e.enviado.value.pedido)));
      rows.Some? && |rows.value| == |s|
  {
  }

  // ---------------------------------------------------------------------
  // menuPorCategoria
  // ---------------------------------------------------------------------

  const SinCategoria := "Sin categoría"

  /** `platillo.categoria || 'Sin categoría'`. */
  function Categoria(p: Platillo): (c: string)
    ensures c != ""
  {
    if p.categoria == "" then SinCategoria else p.categoria
  }

  /** The groups in the order their keys were first seen. */
  type Grupos = seq<(string, seq<Platillo>)>

  /** One step of the `reduce`: push onto the dish's group, or open it. */
  function Agrupar(g: Grupos, p: Platillo): Grupos {
    if g == [] then [(Categoria(p), [p])]
    else if g[0].0 == Categoria(p) then [(g[0].0, g[0].1 + [p])] + g[1..]
    else [g[0]] + Agrupar(g[1..], p)
  }

  /** `menuPorCategoria`: the `reduce` over the menu from the left. */
  function MenuPorCategoria(menu: seq<Platillo>): Grupos {
    if menu == [] then [] else Agrupar(MenuPorCategoria(menu[..|menu| - 1]), menu[|menu| - 1])
  }

  /** The dishes of category `c`, in menu order. */
  function DeCategoria(menu: seq<Platillo>, c: string): seq<Platillo> {
    Filter(menu, (x: Platillo) => Categoria(x) == c)
  }

  predicate ClavesDistintas(g: Grupos) {
    forall i, j :: 0 <= i < j < |g| ==> g[i].0 != g[j].0
  }

  /** `g` groups `menu`: one group per category, each holding exactly that
      category's dishes in menu order, and every dish's category has a
      group. */
  predicate Agrupa(g: Grupos, menu: seq<Platillo>) {
    ClavesDistintas(g) &&
    (forall i :: 0 <= i < |g| ==> g[i].1 == DeCategoria(menu, g[i].0)) &&
    (forall x :: x in menu ==> exists i :: 0 <= i < |g| && g[i].0 == Categoria(x))
  }

  lemma DeCategoriaSnoc(menu: seq<Platillo>, p: Platillo, c: string)
    ensures DeCategoria(menu + [p], c) == DeCategoria(menu, c) + (if Categoria(p) == c then [p] else [])
  {
    FilterAppend(menu, [p], (x: Platillo) => Categoria(x) == c);
  }

  /** The step pushes onto the group of the dish's category when there is
      one and touches no other group, or else opens that group last. */
  lemma {:induction false} AgruparAt(g: Grupos, p: Platillo)
    requires ClavesDistintas(g)
    ensures var r := Agrupar(g, p);
      ClavesDistintas(r) &&
      (forall i :: 0 <= i < |g| && g[i].0 == Categoria(p) ==>
         |r| == |g| && r[i] == (g[i].0, g[i].1 + [p]) && forall j :: 0 <= j < |g| && j != i ==> r[j] == g[j]) &&
      ((forall i :: 0 <= i < |g| ==> g[i].0 != Categoria(p)) ==> r == g + [(Categoria(p), [p])])
  {
    if g != [] && g[0].0 != Categoria(p) {
      var t := g[1..];
      assert ClavesDistintas(t) by {
        forall i, j | 0 <= i < j < |t| ensures t[i].0 != t[j].0 {
          assert t[i] == g[i + 1] && t[j] == g[j + 1];
        }
      }
      AgruparAt(t, p);
      var r := Agrupar(g, p);
      assert r == [g[0]] + Agrupar(t, p);
      forall i | 0 <= i < |g| && g[i].0 == Categoria(p)
        ensures |r| == |g| && r[i] == (g[i].0, g[i].1 + [p]) && forall j :: 0 <= j < |g| && j != i ==> r[j] == g[j]
      {
        assert t[i - 1] == g[i];
        forall j | 0 <= j < |g| && j != i ensures r[j] == g[j] {
          if j > 0 {
            assert t[j - 1] == g[j];
          }
        }
      }
      if forall i :: 0 <= i < |g| ==> g[i].0 != Categoria(p) {
        forall i | 0 <= i < |t| ensures t[i].0 != Categoria(p) {
          assert t[i] == g[i + 1];
        }
      }
      forall i, j | 0 <= i < j < |r| ensures r[i].0 != r[j].0 {
        if i == 0 && j < |g| {
          assert r[j] == g[j] || g[j].0 == Categoria(p);
        }
      }
    } else if g != [] {
      var r := Agrupar(g, p);
      forall i, j | 0 <= i < j < |r| ensures r[i].0 != r[j].0 {
        assert r[i].0 == g[i].0 && r[j].0 == g[j].0;
      }
    }
  }

  /** After the step every group still holds exactly its category's dishes
      of the longer menu. */
  lemma AgruparKeepsContents(g: Grupos, menu: seq<Platillo>, p: Platillo)
    requires Agrupa(g, menu)
    ensures var r := Agrupar(g, p);
      forall i :: 0 <= i < |r| ==> r[i].1 == DeCategoria(menu + [p], r[i].0)
  {
    AgruparAt(g, p);
    var r := Agrupar(g, p);
    forall i | 0 <= i < |r| ensures r[i].1 == DeCategoria(menu + [p], r[i].0) {
      DeCategoriaSnoc(menu, p, r[i].0);
      if exists j :: 0 <= j < |g| && g[j].0 == Categoria(p) {
        var j :| 0 <= j < |g| && g[j].0 == Categoria(p);
        if i != j {
          assert r[i] == g[i];
        }
      } else if i < |g| {
        assert r[i] == g[i];
      } else {
        var c := Categoria(p);
        forall k | 0 <= k < |menu| ensures Categoria(menu[k]) != c {
          assert menu[k] in menu;
        }
        FilterNone(menu, (x: Platillo) => Categoria(x) == c);
      }
    }
  }

  /** After the step every dish of the longer menu still has a group. */
  lemma AgruparCovers(g: Grupos, menu: seq<Platillo>, p: Platillo)
    requires Agrupa(g, menu)
    ensures var r := Agrupar(g, p);
      forall x :: x in menu + [p] ==> exists i :: 0 <= i < |r| && r[i].0 == Categoria(x)
  {
    AgruparAt(g, p);
    var r := Agrupar(g, p);
    forall x | x in menu + [p] ensures exists i :: 0 <= i < |r| && r[i].0 == Categoria(x) {
      if x in menu {
        var i :| 0 <= i < |g| && g[i].0 == Categoria(x);
        assert r[i].0 == g[i].0;
      } else {
        assert x == p;
        if exists i :: 0 <= i < |g| && g[i].0 == Categoria(p) {
          var i :| 0 <= i < |g| && g[i].0 == Categoria(p);
          assert r[i].0 == Categoria(p);
        } else {
          assert r[|g|].0 == Categoria(p);
        }
      }
    }
  }

  lemma AgruparKeepsGrouping(g: Grupos, menu: seq<Platillo>, p: Platillo)
    requires Agrupa(g, menu)
    ensures Agrupa(Agrupar(g, p), menu + [p])
  {
    AgruparAt(g, p);
    AgruparKeepsContents(g, menu, p);
    AgruparCovers(g, menu, p);
  }

  lemma {:induction false} MenuPorCategoriaAgrupa(menu: seq<Platillo>)
    ensures Agrupa(MenuPorCategoria(menu), menu)
  {
    if menu != [] {
      var init, p := menu[..|menu| - 1], menu[|menu| - 1];
      assert init + [p] == menu;
      var g := MenuPorCategoria(init);
      assert MenuPorCategoria(menu) == Agrupar(g, p);
      MenuPorCategoriaAgrupa(init);
      AgruparKeepsGrouping(g, init, p);
    }
  }

  /** The grouping has one group per category, holding exactly that
      category's dishes in menu order; each dish of the menu lies in exactly
      one group, the one of its category. */
  lemma MenuPorCategoriaSpec(menu: seq<Platillo>)
    ensures var g := MenuPorCategoria(menu);
      ClavesDistintas(g) &&
      (forall i :: 0 <= i < |g| ==> g[i].1 == DeCategoria(menu, g[i].0)) &&
      (forall x :: x in menu ==> exists i :: 0 <= i < |g| && g[i].0 == Categoria(x)) &&
      (forall x, i :: x in menu && 0 <= i < |g| ==> (x in g[i].1 <==> g[i].0 == Categoria(x)))
  {
    var g := MenuPorCategoria(menu);
    MenuPorCategoriaAgrupa(menu);
    forall x, i | x in menu && 0 <= i < |g| ensures x in g[i].1 <==> g[i].0 == Categoria(x) {
      var c := g[i].0;
      if Categoria(x) == c {
        var k :| 0 <= k < |menu| && menu[k] == x;
        assert x in DeCategoria(menu, c);
      }
      if x in g[i].1 {
        var f := DeCategoria(menu, c);
        var k :| 0 <= k < |f| && f[k] == x;
      }
    }
  }
}

/** The table-side demo screen (`RestaurantView`): a cart over a fixed menu,
    an order status and the panel being shown. The cart reuses the diner
    order of `Cart`: the menu item's `id` plays the part of `id_menu`. */
module RestaurantView {
  import opened Base
  import Cart

  const PlatosFuertes := "Platos Fuertes"

  const Tacos := Cart.Platillo(1, "Tacos ", 3550, "Platos Fuertes")
  const Sopa := Cart.Platillo(2, "Sopa ", 5000, "Entradas")
  const Horchata := Cart.Platillo(3, "Agua de Horchata", 2500, "Bebidas")
  const Flan := Cart.Platillo(4, "Flan ", 4500, "Postres")
  const Enchiladas := Cart.Platillo(5, "Enchiladas", 9500, "Platos Fuertes")

  /** `mockMenu`, prices in cents. */
  const MockMenu: seq<Cart.Platillo> := [Tacos, Sopa, Horchata, Flan, Enchiladas]

  const Pendiente := "Pendiente"
  const EnProceso := "En Proceso"
  const VistaMenu := "menu"
  const VistaConsumo := "consumo"

  predicate EsFuerte(p: Cart.Platillo) { p.categoria == PlatosFuertes }
  predicate NoEsFuerte(p: Cart.Platillo) { p.categoria != PlatosFuertes }

  /** The items listed under the `Platos Fuertes` heading. */
  function Fuertes(menu: seq<Cart.Platillo>): seq<Cart.Platillo> {
    Filter(menu, EsFuerte)
  }

  /** The items listed under `Entradas y Bebidas`: every other category. */
  function Otros(menu: seq<Cart.Platillo>): seq<Cart.Platillo> {
    Filter(menu, NoEsFuerte)
  }

  /** `renderMenu` shows every item exactly once: the two lists together are
      the menu (as a multiset, and in number), the first holds exactly the
      `Platos Fuertes` items and the second exactly the rest. */
  lemma RenderMenuPartition(menu: seq<Cart.Platillo>)
    ensures multiset(Fuertes(menu)) + multiset(Otros(menu)) == multiset(menu)
    ensures |Fuertes(menu)| + |Otros(menu)| == |menu|
    ensures forall x :: x in Fuertes(menu) <==> x in menu && x.categoria == PlatosFuertes
    ensures forall x :: x in Otros(menu) <==> x in menu && x.categoria != PlatosFuertes
  {
    FilterPartition(menu, EsFuerte, NoEsFuerte);
  }

  /** On the demo menu the first heading lists the tacos and the enchiladas,
      in menu order. */
  lemma MockMenuFuertes()
    ensures Fuertes(MockMenu) == [Tacos, Enchiladas]
  {
    assert EsFuerte(Tacos) && !EsFuerte(Sopa) && !EsFuerte(Horchata) && !EsFuerte(Flan) && EsFuerte(Enchiladas);
    assert Filter([Enchiladas], EsFuerte) == [Enchiladas];
    assert Filter([Flan, Enchiladas], EsFuerte) == [Enchiladas];
    assert Filter([Horchata, Flan, Enchiladas], EsFuerte) == [Enchiladas];
    assert Filter([Sopa, Horchata, Flan, Enchiladas], EsFuerte) == [Enchiladas];
  }

  /** The second heading lists the soup, the horchata and the flan, in menu
      order. */
  lemma MockMenuOtros()
    ensures Otros(MockMenu) == [Sopa, Horchata, Flan]
  {
    assert !NoEsFuerte(Tacos) && NoEsFuerte(Sopa) && NoEsFuerte(Horchata) && NoEsFuerte(Flan) && !NoEsFuerte(Enchiladas);
    assert Filter([Enchiladas], NoEsFuerte) == [];
    assert Filter([Flan, Enchiladas], NoEsFuerte) == [Flan];
    assert Filter([Horchata, Flan, Enchiladas], NoEsFuerte) == [Horchata, Flan];
    assert Filter([Sopa, Horchata, Flan, Enchiladas], NoEsFuerte) == [Sopa, Horchata, Flan];
  }

  class RestaurantView {
    var cart: Cart.Pedido
    var orderStatus: string
    var viewMode: string

    /** One line per item with positive quantities, and the status and panel
        among the values the screen sets. */
    predicate Valid()
      reads this
    {
      Cart.OneLinePerDish(cart) && Cart.Positive(cart) &&
      (orderStatus == Pendiente || orderStatus == EnProceso) &&
      (viewMode == VistaMenu || viewMode == VistaConsumo)
    }

    /** An empty cart, a pending status and the menu panel. */
    constructor ()
      ensures cart == [] && orderStatus == Pendiente && viewMode == VistaMenu
      ensures Valid()
    {
      cart := [];
      orderStatus := Pendiente;
      viewMode := VistaMenu;
    }

    /** `calculateTotal`: the sum of `precio × cantidad`; zero for an empty
        cart. */
    function CalculateTotal(): (total: int)
      reads this
      ensures cart == [] ==> total == 0
    {
      Cart.Total(cart)
    }

    /** `addToCart`: one more of an item already in the cart, or a new line
        of one at the end; nothing else changes, and the total rises by the
        item's price. */
    method AddToCart(item: Cart.Platillo)
      requires Valid()
      modifies this
      ensures cart == Cart.Agregar(old(cart), item)
      ensures orderStatus == old(orderStatus) && viewMode == old(viewMode)
      ensures Valid()
      ensures Cart.Cantidad(cart, item.idMenu) == Cart.Cantidad(old(cart), item.idMenu) + 1
      ensures |cart| == |old(cart)| + (if item.idMenu in Cart.Ids(old(cart)) then 0 else 1)
      ensures (forall l :: l in old(cart) && Cart.Id(l) == item.idMenu ==> l.platillo == item) ==>
        CalculateTotal() == old(CalculateTotal()) + item.precio
    {
      Cart.AgregarSpec(cart, item);
      cart := Cart.Agregar(cart, item);
    }

    /** `placeOrder`: an empty cart only raises the reminder and changes no
        state; otherwise the status becomes `En Proceso`, the cart is
        emptied and the consumption panel is shown. */
    method PlaceOrder() returns (alerta: string)
      requires Valid()
      modifies this
      ensures old(cart) == [] ==>
        cart == old(cart) && orderStatus == old(orderStatus) && viewMode == old(viewMode) &&
        alerta == "Añade algo al carrito antes de pedir."
      ensures old(cart) != [] ==>
        cart == [] && orderStatus == EnProceso && viewMode == VistaConsumo &&
        alerta == "¡Pedido enviado con éxito! Puedes ver el estatus en Consumo."
      ensures Valid()
    {
      if cart == [] {
        alerta := "Añade algo al carrito antes de pedir.";
        return;
      }
      orderStatus := EnProceso;
      cart := [];
      alerta := "¡Pedido enviado con éxito! Puedes ver el estatus en Consumo.";
      viewMode := VistaConsumo;
    }

    /** The `Menú` tab. */
    method ShowMenu()
      requires Valid()
      modifies this
      ensures viewMode == VistaMenu && cart == old(cart) && orderStatus == old(orderStatus)
      ensures Valid()
    {
      viewMode := VistaMenu;
    }

    /** The `Mi Consumo` tab. */
    method ShowConsumo()
      requires Valid()
      modifies this
      ensures viewMode == VistaConsumo && cart == old(cart) && orderStatus == old(orderStatus)
      ensures Valid()
    {
      viewMode := VistaConsumo;
    }
  }
}

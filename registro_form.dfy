/** The restaurant sign-up page (`RegistrarRestaurante`): the nested form
    state, the editable list of menu items, the coercion of number inputs,
    and the checks made before the request is sent. */
module RegistroForm {
  import opened Base
  import opened Text

  // ---------------------------------------------------------------------
  // Number inputs
  // ---------------------------------------------------------------------

  /** The longest prefix of decimal digits. */
  function LeadingDigits(s: string): (d: string)
    ensures d <= s && AllDigits(d)
    ensures |d| < |s| ==> !IsDigit(s[|d|])
  {
    if s == [] || !IsDigit(s[0]) then [] else [s[0]] + LeadingDigits(s[1..])
  }

  /** JavaScript `parseInt(s)` in base 10: leading blanks, an optional sign,
      then as many digits as there are; `None` is `NaN`. */
  function ParseInt(s: string): Option<int> {
    var t := TrimStart(s, IsJsSpace);
    var neg := |t| > 0 && t[0] == '-';
    var u := if |t| > 0 && (t[0] == '-' || t[0] == '+') then t[1..] else t;
    var d := LeadingDigits(u);
    var v: int := DigitsValue(d);
    if d == [] then None else Some(if neg then -v else v)
  }

  /** `value === '' ? 1 : parseInt(value) || 1`: `NaN` and `0` are falsy. */
  function Coerce(value: string): (n: int)
    ensures n != 0
    ensures value == "" ==> n == 1
    ensures n != 1 ==> ParseInt(value) == Some(n)
  {
    if value == "" then 1
    else match ParseInt(value) {
      case None => 1
      case Some(n) => if n == 0 then 1 else n
    }
  }

  lemma {:induction false} LeadingDigitsAll(s: string)
    requires AllDigits(s)
    ensures LeadingDigits(s) == s
  {
    if s != [] {
      LeadingDigitsAll(s[1..]);
      assert [s[0]] + s[1..] == s;
    }
  }

  /** Trimming leaves alone a text that starts with a digit or a sign. */
  lemma {:induction false} TrimStartSigned(s: string)
    requires s != [] && (IsDigit(s[0]) || s[0] == '-')
    ensures TrimStart(s, IsJsSpace) == s
  {
    assert !IsJsSpace(s[0]);
    TrimStartSuffix(s, IsJsSpace);
  }

  /** A numeral is read whole. */
  lemma ParseIntNumeral(d: string)
    requires d != [] && AllDigits(d)
    ensures ParseInt(d) == Some(DigitsValue(d) as int)
  {
    LeadingDigitsAll(d);
    TrimStartSigned(d);
    assert !(d[0] == '-' || d[0] == '+');
  }

  /** A numeral after a `-` is read whole and negated. */
  lemma ParseIntNegated(d: string)
    requires d != [] && AllDigits(d)
    ensures ParseInt("-" + d) == Some(-(DigitsValue(d) as int))
  {
    var m := "-" + d;
    TrimStartSigned(m);
    assert m[0] == '-' && m[1..] == d;
    LeadingDigitsAll(d);
  }

  /** A count typed as a positive decimal comes through unchanged, and so
      does its negative: the coercion does not stop negative counts. Zero,
      with or without a sign, becomes 1. */
  lemma CoercePrinted(n: nat)
    ensures n >= 1 ==> Coerce(NatToDecimal(n)) == n
    ensures n >= 1 ==> Coerce("-" + NatToDecimal(n)) == -(n as int)
    ensures Coerce("0") == 1 && Coerce("-0") == 1
  {
    DecimalRoundTrip(n);
    ParseIntNumeral(NatToDecimal(n));
    ParseIntNegated(NatToDecimal(n));
    ParseIntNumeral("0");
    ParseIntNegated("0");
    assert "-" + "0" == "-0";
  }

  /** Text with no digit where the number should start is `NaN`, which
      becomes 1. */
  lemma CoerceNotANumber(value: string)
    requires var t := TrimStart(value, IsJsSpace);
      var u := if |t| > 0 && (t[0] == '-' || t[0] == '+') then t[1..] else t;
      u == [] || !IsDigit(u[0])
    ensures Coerce(value) == 1
  {
  }

  // ---------------------------------------------------------------------
  // The nested form: handleChange
  // ---------------------------------------------------------------------

  /** A form value: the text of a text input, or a coerced number. */
  datatype Campo = Texto(s: string) | Numero(n: int)

  datatype Form = Form(restaurante: map<string, Campo>, gerente: map<string, Campo>)

  const InitialForm := Form(
    map["nombre" := Texto(""), "ubicacion" := Texto(""), "num_mesas" := Numero(1)],
    map["nombre" := Texto(""), "correo_electronico" := Texto(""), "password" := Texto("")])

  /** A change event: the input's `name`, its `value`, and whether its
      `type` is `number`. */
  datatype Evento = Evento(name: string, value: string, isNumber: bool)

  function FinalValue(e: Evento): Campo {
    if e.isNumber then Numero(Coerce(e.value)) else Texto(e.value)
  }

  /** `name.split('.')[1]`, which is `undefined` for a name without a dot. */
  function FieldOf(name: string): string {
    var parts := Split(name, '.');
    if |parts| >= 2 then parts[1] else "undefined"
  }

  /** The field of `prefix.rest` is what follows the first dot up to the
      next one. */
  lemma FieldOfPrefix(prefix: string, rest: string)
    requires '.' !in prefix
    ensures FieldOf(prefix + "." + rest) == Split(rest, '.')[0]
    ensures '.' !in rest ==> FieldOf(prefix + "." + rest) == rest
  {
    SplitAtSep(prefix, '.', rest);
    if '.' !in rest {
      SplitNoSep(rest, '.');
    }
  }

  const RestaurantePart := "restaurante"
  const GerentePart := "gerente"
  const RestaurantePrefix := RestaurantePart + "."
  const GerentePrefix := GerentePart + "."

  /** `handleChange`. */
  function HandleChange(f: Form, e: Evento): Form {
    if RestaurantePrefix <= e.name then f.(restaurante := f.restaurante[FieldOf(e.name) := FinalValue(e)])
    else if GerentePrefix <= e.name then f.(gerente := f.gerente[FieldOf(e.name) := FinalValue(e)])
    else f
  }

  /** A name under `restaurante.` or `gerente.` sets that one field of that
      part to the coerced value and leaves every other field and the other
      part alone; any other name changes nothing. */
  lemma HandleChangeSpec(f: Form, e: Evento)
    ensures var r := HandleChange(f, e);
      var k := FieldOf(e.name);
      (RestaurantePrefix <= e.name ==>
        r.gerente == f.gerente && k in r.restaurante && r.restaurante[k] == FinalValue(e) &&
        r.restaurante.Keys == f.restaurante.Keys + {k} &&
        forall j :: j in f.restaurante && j != k ==> r.restaurante[j] == f.restaurante[j]) &&
      (GerentePrefix <= e.name ==>
        r.restaurante == f.restaurante && k in r.gerente && r.gerente[k] == FinalValue(e) &&
        r.gerente.Keys == f.gerente.Keys + {k} &&
        forall j :: j in f.gerente && j != k ==> r.gerente[j] == f.gerente[j]) &&
      (!(RestaurantePrefix <= e.name) && !(GerentePrefix <= e.name) ==> r == f)
  {
    if RestaurantePrefix <= e.name {
      assert e.name[0] == 'r';
    }
  }

  const RestauranteFields: set<string> := {"nombre", "ubicacion", "num_mesas"}
  const GerenteFields: set<string> := {"nombre", "correo_electronico", "password"}
  const NumMesas := "num_mesas"

  /** The six inputs of the page, named `part.field`: only
      `restaurante.num_mesas` is a number input. */
  predicate PageEvent(e: Evento) {
    (exists k :: k in RestauranteFields && e.name == RestaurantePrefix + k && e.isNumber == (k == NumMesas)) ||
    (exists k :: k in GerenteFields && e.name == GerentePrefix + k && !e.isNumber)
  }

  /** The form has the fields it starts with, and the table count is a
      number. */
  predicate WellFormed(f: Form) {
    f.restaurante.Keys == RestauranteFields && f.gerente.Keys == GerenteFields &&
    f.restaurante[NumMesas].Numero?
  }

  lemma InitialWellFormed()
    ensures WellFormed(InitialForm)
  {
  }

  lemma FieldNamesPlain()
    ensures forall k :: k in RestauranteFields ==> '.' !in k
    ensures forall k :: k in GerenteFields ==> '.' !in k
  {
  }

  /** A change from one of the restaurant inputs sets that field. */
  lemma RestauranteEventKeepsForm(f: Form, e: Evento, k: string)
    requires WellFormed(f) && k in RestauranteFields
    requires e.name == RestaurantePrefix + k && e.isNumber == (k == NumMesas)
    ensures WellFormed(HandleChange(f, e))
  {
    FieldNamesPlain();
    assert e.name == RestaurantePart + "." + k;
    FieldOfPrefix(RestaurantePart, k);
    assert RestaurantePrefix <= e.name;
    assert HandleChange(f, e).restaurante == f.restaurante[k := FinalValue(e)];
  }

  /** A change from one of the manager inputs sets that field. */
  lemma GerenteEventKeepsForm(f: Form, e: Evento, k: string)
    requires WellFormed(f) && k in GerenteFields
    requires e.name == GerentePrefix + k && !e.isNumber
    ensures WellFormed(HandleChange(f, e))
  {
    FieldNamesPlain();
    assert e.name == GerentePart + "." + k;
    FieldOfPrefix(GerentePart, k);
    assert GerentePrefix <= e.name;
    assert !(RestaurantePrefix <= e.name) by {
      assert e.name[0] == 'g';
    }
    assert HandleChange(f, e) == f.(gerente := f.gerente[k := FinalValue(e)]);
  }

  /** Changes from the page's own inputs keep the form well formed: they
      land on existing fields, and the table count stays a number. */
  lemma PageEventKeepsForm(f: Form, e: Evento)
    requires WellFormed(f) && PageEvent(e)
    ensures WellFormed(HandleChange(f, e))
  {
    if exists k :: k in RestauranteFields && e.name == RestaurantePrefix + k && e.isNumber == (k == NumMesas) {
      var k :| k in RestauranteFields && e.name == RestaurantePrefix + k && e.isNumber == (k == NumMesas);
      RestauranteEventKeepsForm(f, e, k);
    } else {
      var k :| k in GerenteFields && e.name == GerentePrefix + k && !e.isNumber;
      GerenteEventKeepsForm(f, e, k);
    }
  }

  // ---------------------------------------------------------------------
  // The menu list
  // ---------------------------------------------------------------------

  /** A menu row as typed: every field is the input's text (the price input
      is a number input, but its value is kept as text). */
  datatype ItemForm = ItemForm(nombre: string, precio: string, categoria: string)

  const EmptyItem := ItemForm("", "", "")

  const InitialItems := [EmptyItem]

  datatype ItemField = Nombre | Precio | Categoria

  function SetField(it: ItemForm, field: ItemField, value: string): ItemForm {
    match field {
      case Nombre => it.(nombre := value)
      case Precio => it.(precio := value)
      case Categoria => it.(categoria := value)
    }
  }

  /** `handleMenuChange`, for the index of a row on the page. */
  function HandleMenuChange(items: seq<ItemForm>, index: nat, field: ItemField, value: string): (r: seq<ItemForm>)
    requires index < |items|
    ensures |r| == |items|
    ensures forall k :: 0 <= k < |items| && k != index ==> r[k] == items[k]
    ensures field == Nombre ==> r[index] == ItemForm(value, items[index].precio, items[index].categoria)
    ensures field == Precio ==> r[index] == ItemForm(items[index].nombre, value, items[index].categoria)
    ensures field == Categoria ==> r[index] == ItemForm(items[index].nombre, items[index].precio, value)
  {
    items[index := SetField(items[index], field, value)]
  }

  /** `addMenuItem`. */
  function AddMenuItem(items: seq<ItemForm>): (r: seq<ItemForm>)
    ensures |r| == |items| + 1 && r[..|items|] == items && r[|items|] == EmptyItem
  {
    items + [EmptyItem]
  }

  /** `prev.filter((_, i) => i !== index)`. */
  function WithoutIndex(items: seq<ItemForm>, index: nat): seq<ItemForm> {
    if items == [] then []
    else if index == 0 then items[1..]
    else [items[0]] + WithoutIndex(items[1..], index - 1)
  }

  /** `removeMenuItem`: only when more than one row is left. */
  function RemoveMenuItem(items: seq<ItemForm>, index: nat): seq<ItemForm> {
    if |items| > 1 then WithoutIndex(items, index) else items
  }

  lemma {:induction false} WithoutIndexSpec(items: seq<ItemForm>, index: nat)
    ensures index < |items| ==> WithoutIndex(items, index) == items[..index] + items[index + 1..]
    ensures index >= |items| ==> WithoutIndex(items, index) == items
  {
    if items != [] && index > 0 {
      WithoutIndexSpec(items[1..], index - 1);
      if index < |items| {
        assert [items[0]] + (items[1..][..index - 1] + items[1..][index..]) == items[..index] + items[index + 1..];
      } else {
        assert [items[0]] + items[1..] == items;
      }
    } else if items != [] {
      assert items[..0] + items[1..] == items[1..];
    }
  }

  /** Removing a row drops exactly that row, keeping the others in order,
      when there is more than one; a single row is never removed, so the
      list never becomes empty. */
  lemma RemoveMenuItemSpec(items: seq<ItemForm>, index: nat)
    ensures var r := RemoveMenuItem(items, index);
      (|items| > 1 && index < |items| ==> r == items[..index] + items[index + 1..]) &&
      (|items| <= 1 || index >= |items| ==> r == items) &&
      (items != [] ==> r != [])
  {
    WithoutIndexSpec(items, index);
  }

  /** No edit of the list empties it: it starts with one row and each of the
      three operations leaves at least one. */
  lemma ItemsNeverEmpty(items: seq<ItemForm>, index: nat, field: ItemField, value: string)
    requires items != []
    ensures InitialItems != [] && AddMenuItem(items) != [] && RemoveMenuItem(items, index) != []
    ensures index < |items| ==> HandleMenuChange(items, index, field, value) != []
  {
    RemoveMenuItemSpec(items, index);
  }

  // ---------------------------------------------------------------------
  // handleSubmit
  // ---------------------------------------------------------------------

  /** `item.nombre.trim() !== '' && item.precio.trim() !== '' && item.categoria.trim() !== ''`. */
  predicate CompleteItem(it: ItemForm) {
    JsTrim(it.nombre) != "" && JsTrim(it.precio) != "" && JsTrim(it.categoria) != ""
  }

  function ValidMenuItems(items: seq<ItemForm>): seq<ItemForm> {
    Filter(items, CompleteItem)
  }

  /** The JSON body; a field missing from the form is `None` (left out by
      `JSON.stringify`). */
  datatype GerenteBody = GerenteBody(nombre: Option<Campo>, correo: Option<Campo>, password: Option<Campo>)
  datatype RequestBody = RequestBody(nombre: Option<Campo>, ubicacion: Option<Campo>, numMesas: int,
                                     gerente: GerenteBody, menu: seq<ItemForm>)

  function Lookup(m: map<string, Campo>, k: string): Option<Campo> {
    if k in m then Some(m[k]) else None
  }

  /** How the request ends: accepted; refused with the `message` of its
      body ("" when it has none); or failing with an error text. */
  datatype Respuesta = Aceptada | Rechazada(message: string) | Fallida(message: string)

  /** What the page does: the body sent, if any, the error shown, if any,
      and whether the success notice is shown. */
  datatype Envio = Envio(enviado: Option<RequestBody>, error: Option<string>, registrado: bool)

  const MenuRequerido := "Debe agregar al menos un platillo completo al menú."
  const MesasMinimas := "El número de mesas debe ser al menos 1."
  const ErrorRegistro := "Error al registrar el restaurante"

  /** `handleSubmit`, for a form built by the page's own inputs. */
  function HandleSubmit(f: Form, items: seq<ItemForm>, respuesta: Respuesta): Envio
    requires WellFormed(f)
  {
    var valid := ValidMenuItems(items);
    var mesas := f.restaurante[NumMesas].n;
    if |valid| == 0 then Envio(None, Some(MenuRequerido), false)
    else if mesas < 1 then Envio(None, Some(MesasMinimas), false)
    else
      var cuerpo := RequestBody(Lookup(f.restaurante, "nombre"), Lookup(f.restaurante, "ubicacion"), mesas,
                                GerenteBody(Lookup(f.gerente, "nombre"), Lookup(f.gerente, "correo_electronico"),
                                            Lookup(f.gerente, "password")),
                                valid);
      match respuesta {
        case Aceptada => Envio(Some(cuerpo), None, true)
        case Rechazada(m) => Envio(Some(cuerpo), Some(if m == "" then ErrorRegistro else m), false)
        case Fallida(m) => Envio(Some(cuerpo), Some(m), false)
      }
  }

  /** The kept rows are exactly the complete ones, and none is kept exactly
      when no row is complete. */
  lemma ValidMenuItemsSpec(items: seq<ItemForm>)
    ensures ValidMenuItems(items) == [] <==> forall k :: 0 <= k < |items| ==> !CompleteItem(items[k])
    ensures forall it :: it in ValidMenuItems(items) <==> it in items && CompleteItem(it)
  {
    FilterMembers(items, CompleteItem);
  }

  /** Nothing is sent unless some row is complete and the table count is at
      least 1, and the menu check comes first. A sent body carries the form's
      table count and exactly the complete rows, in their order; the notice
      shows exactly when the request is accepted, and a refusal without a
      message shows the generic text. */
  lemma HandleSubmitSpec(f: Form, items: seq<ItemForm>, respuesta: Respuesta)
    requires WellFormed(f)
    ensures var e := HandleSubmit(f, items, respuesta);
      var mesas := f.restaurante[NumMesas].n;
      var none := forall k :: 0 <= k < |items| ==> !CompleteItem(items[k]);
      (e.enviado.None? <==> none || mesas < 1) &&
      (none ==> e.error == Some(MenuRequerido)) &&
      (!none && mesas < 1 ==> e.error == Some(MesasMinimas)) &&
      (e.enviado.Some? ==>
        e.enviado.value.numMesas == mesas && mesas >= 1 &&
        e.enviado.value.menu == ValidMenuItems(items) &&
        (forall it :: it in e.enviado.value.menu <==> it in items && CompleteItem(it))) &&
      (e.registrado <==> e.enviado.Some? && respuesta.Aceptada?) &&
      (e.enviado.Some? && respuesta == Rechazada("") ==> e.error == Some(ErrorRegistro))
  {
    ValidMenuItemsSpec(items);
  }

  /** The body's names, address and password are the form's. */
  lemma SubmitCarriesForm(f: Form, items: seq<ItemForm>, respuesta: Respuesta)
    requires WellFormed(f)
    ensures var e := HandleSubmit(f, items, respuesta);
      e.enviado.Some? ==>
        e.enviado.value.nombre == Some(f.restaurante["nombre"]) &&
        e.enviado.value.ubicacion == Some(f.restaurante["ubicacion"]) &&
        e.enviado.value.gerente == GerenteBody(Some(f.gerente["nombre"]), Some(f.gerente["correo_electronico"]),
                                               Some(f.gerente["password"]))
  {
  }

  /** A negative count passes the number input's coercion and is stopped
      only by the submit check. */
  lemma NegativeCountStopped(f: Form, items: seq<ItemForm>, n: nat, respuesta: Respuesta)
    requires WellFormed(f) && n >= 1
    requires exists k :: 0 <= k < |items| && CompleteItem(items[k])
    ensures var e := Evento(RestaurantePrefix + NumMesas, "-" + NatToDecimal(n), true);
      var g := HandleChange(f, e);
      WellFormed(g) && g.restaurante[NumMesas] == Numero(-(n as int)) &&
      HandleSubmit(g, items, respuesta) == Envio(None, Some(MesasMinimas), false)
  {
    var e := Evento(RestaurantePrefix + NumMesas, "-" + NatToDecimal(n), true);
    FieldNamesPlain();
    assert NumMesas in RestauranteFields;
    PageEventKeepsForm(f, e);
    var g := HandleChange(f, e);
    assert e.name == RestaurantePart + "." + NumMesas;
    FieldOfPrefix(RestaurantePart, NumMesas);
    CoercePrinted(n);
    assert FinalValue(e) == Numero(-(n as int));
    HandleChangeSpec(f, e);
    assert g.restaurante[NumMesas] == Numero(-(n as int));
    HandleSubmitSpec(g, items, respuesta);
  }
}

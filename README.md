# Entremesa: a verified model of its request rules

Entremesa is a restaurant-ordering system. A Laravel backend reaches a hosted
Postgres REST API (PostgREST, as offered by Supabase) through one service
class. React screens serve three kinds of user:

- the diner at a table, who arrives through a QR code;
- the staff: managers, waiters and cooks;
- the person registering a new restaurant.

This project models the rules underneath that plumbing, in Dafny, and proves
what they guarantee.

- **Data gateway** (`gateway.dfy`, `query_builder.dfy`, `urlcodec.dfy`)
  - How the service addresses the REST API: the trimmed base URL, `/rest/v1/<table>`, `column=eq.<urlencoded>` filters, the `Prefer` header, and the `{table}?id=eq.{id}` row target.
  - The fluent `QueryBuilder` is a class whose filter map and column list are fields its methods update.
  - A model of PHP `urlencode`/`urldecode` over UTF-8.
  - Round-trip lemmas show that the query string a `select` builds reads back as the filters it was given.
- **Store** (`store.dfy`)
  - The database is a class `Db` with one sequence of rows per table and a single serial counter for new ids.
  - Every write the gateway can make is a `Db` method. Its contract is a pure function of the old state, plus a flag saying whether the service accepted the write.
- **Controllers** (`comensal.dfy`, `auth.dfy`, `dashboard.dfy`, `user_management.dfy`, `restaurante.dfy`, `provisioning.dfy`, with `validation.dfy` for the validator rules).
  - Each handler is a method on the `Db`. It is proved equal to a specification function of the old state and the request.
  - Lemmas about that function state what the handler promises: which rows it appends, what it leaves alone, and which answer each input gets.
- **Screens** (`cart.dfy`, `restaurant_view.dfy`, `registro_form.dfy`, `login_form.dfy`)
  - The diner's order algebra: add, change a quantity, remove, total, send, group by category.
  - The demo table screen: a small state machine over a cart.
  - The registration form: input coercion, field routing, menu rows and submit checks.
  - The login page: what it stores, where it routes, and what error it shows.

## Modelling conventions

- **Money.** Prices and totals are integer cents. A price printed with two decimals reads back as the same number of cents.
- **Outside effects become parameters.** The service's answers become method parameters: whether an insert is accepted, whether a representation is echoed, the clock reading, the random token and the UUIDs drawn.
- **Hashing.** A hash is the datatype `Digest`. `Hash::check` succeeds exactly on the hashed secret.
- **Filters.** A PHP filter array is a sequence of (column, value) pairs, in insertion order. Assigning to a key overwrites that key in place, or appends it when it is new.

## Model

| member | source | states |
|---|---|---|
| Gateway.BaseUrlShape | Backend/app/Services/SupabaseService.php:29-30 | The base URL is the trimmed configured URL with only trailing slashes cut off. Non-empty, it does not end in `/` and does not begin with white space. |
| Gateway.BaseUrlIgnoresTrailingSlashes | Backend/app/Services/SupabaseService.php:29-30 | Any number of trailing slashes gives the same base URL as none. |
| Gateway.PhpTrimNoTrailingSpace | Backend/app/Services/SupabaseService.php:29-30 | `trim` of a URL that does not end in white space only removes its leading white space. |
| Gateway.TrailingSlashesIgnored | Backend/app/Services/SupabaseService.php:29-31 | A configured URL with trailing slashes addresses every table at the same URL as the one without them, so no doubled slash comes from the base. |
| Gateway.RequestHeaders | Backend/app/Services/SupabaseService.php:33-36 | The headers sent have exactly the default keys. Every header other than `Prefer` keeps its default value. |
| Gateway.PreferSent | Backend/app/Services/SupabaseService.php:33-36 | The `Prefer` header sent is `return=representation` for the value `return=minimal`, and the value itself otherwise. |
| Gateway.InsertFlagIrrelevant | Backend/app/Services/SupabaseService.php:86-90 | Whatever flag `insert` receives, the default headers are sent, so every insert asks for `return=representation`. |
| Gateway.InsertAddressesTable | Backend/app/Services/SupabaseService.php:86-90 | An insert is a POST to the table's URL with the default headers and the rows as body. |
| Gateway.UpdateDeleteAddressRow | Backend/app/Services/SupabaseService.php:92-100 | `update` and `delete` address `<base>/rest/v1/{table}?id=eq.{id}` with the default headers. `update` is a PATCH carrying the data; `delete` is a DELETE. |
| Gateway.IdTargetMissesCocineroKey | Backend/app/Services/SupabaseService.php:92-100 | As written, the row target filters on a column named `id`, which the `cocinero` table does not have. |
| Gateway.KeyTargetNamesKey | Backend/app/Services/SupabaseService.php:92-100 | The corrected row target filters on the table's own key column. For `cocinero` that column is one of the table's columns. |
| Gateway.StripEq | Backend/app/Services/SupabaseService.php:60-64 | Exactly one leading `eq.` is removed when present. Any other value is unchanged. |
| Gateway.FilterParams | Backend/app/Services/SupabaseService.php:58-65 | One query parameter per filter. |
| Gateway.Select | Backend/app/Services/SupabaseService.php:51-76 | The loop builds the parameters. The call is a GET of the URL `SelectUrl` describes, with the default headers. |
| Gateway.SelectIgnoresColumns | Backend/app/Services/SupabaseService.php:51-55 | The requested column list never reaches the URL: any two column lists give the same URL. |
| Gateway.EqPrefixRedundant | Backend/app/Services/SupabaseService.php:60-64 | A value `eq.x` gives the same parameter as `x` if and only if `x` does not itself start with `eq.`. |
| Gateway.ParamRoundTrip | Backend/app/Services/SupabaseService.php:61-63 | A parameter reads back as its column and the value with `eq.` stripped, and contains no `&`. |
| Gateway.ParamsRoundTrip | Backend/app/Services/SupabaseService.php:58-65 | The parameter list reads back as the designated filters. |
| Gateway.QueryRoundTrip | Backend/app/Services/SupabaseService.php:67-68 | The `&`-joined query string of a non-empty filter list reads back as the designated filters, one per filter, in order. |
| Gateway.SelectUrlRoundTrip | Backend/app/Services/SupabaseService.php:55-69 | A `select` URL carries a query string if and only if there are filters. The filters it asks for are the designated filters, in order. |
| Gateway.MenuUrl | Backend/app/Services/SupabaseService.php:115-119 | The menu URL starts with the fixed prefix and is followed by exactly the QR code. |
| Query.LookupKeys | Backend/app/Services/QueryBuilder.php:24-28 | A filter key is set if and only if it is one of the builder's columns. |
| Query.SetKeyKeys | Backend/app/Services/QueryBuilder.php:26 | Assigning an existing key keeps its place. A new key is appended last. |
| Query.SetKeyLookup | Backend/app/Services/QueryBuilder.php:26 | After the assignment the key holds the new value, so a second `eq` overwrites. Every other key keeps its value. |
| Query.SetKeyDistinct | Backend/app/Services/QueryBuilder.php:26 | Assignment keeps the keys distinct, as PHP array keys are. |
| Query.QueryBuilder.constructor | Backend/app/Services/QueryBuilder.php:9-16 | A fresh builder holds the service and table, no filters, and the column list `*`. |
| Query.QueryBuilder.Select | Backend/app/Services/QueryBuilder.php:18-22 | Replaces the column list, leaves the filters alone, and returns the builder itself. |
| Query.QueryBuilder.Eq | Backend/app/Services/QueryBuilder.php:24-28 | Sets `filters[col]` to `eq.` followed by the value, keeps the column list, and returns the builder itself. |
| Query.QueryBuilder.Single | Backend/app/Services/QueryBuilder.php:30-41 | Issues the gateway's `select` with the builder's table, columns and filters unchanged. |
| Query.DesignatedLookup | Backend/app/Services/QueryBuilder.php:30-38 | The filter `select` reads for a column is the stored value with its `eq.` stripped. |
| Query.EqFilterDesignatesValue | Backend/app/Services/QueryBuilder.php:26 | A filter set by `eq` reaches the query as the raw value, never a doubled `eq.eq.`. |
| UrlCodec.UrlRoundTrip | Backend/app/Services/SupabaseService.php:61-63 | `urldecode(urlencode(s))` is the UTF-8 encoding of `s`, and decoding that gives back `s`. |
| UrlCodec.UrlEncodeInjective | Backend/app/Services/SupabaseService.php:61-63 | Distinct values have distinct encodings. |
| UrlCodec.UrlEncodeAlphabet | Backend/app/Services/SupabaseService.php:61-68 | Encoded text uses only letters, digits and `-_.+%`. It never contains `&`, `=`, `?`, `#` or `/`. |
| UrlCodec.UrlEncodeUnreserved | Backend/app/Services/SupabaseService.php:61-63 | A text made only of unreserved characters is encoded as itself. |
| Text.PadLeft | Backend/app/Services/SupabaseService.php:163 | `str_pad` pads on the left up to the width and never truncates. |
| Text.FormatCentsRoundTrip | Frontend/src/modulos/comensal/MenuComensal.jsx:68-70 | A two-decimal price text reads back as the same number of cents. |
| Provisioning.MesaNumberValue | Backend/app/Services/SupabaseService.php:163 | A table number is all digits and reads back as the table's index. |
| Provisioning.MesaNumberInjective | Backend/app/Services/SupabaseService.php:163 | Two tables never share a number. |
| Provisioning.MesaNumberWidth | Backend/app/Services/SupabaseService.php:163 | Tables 1 to 999 get exactly three characters. From 1000 on, the number is longer. |
| Provisioning.MesaNumberFirst | Backend/app/Services/SupabaseService.php:163 | Table 1 is `001` and table 12 is `012`. |
| Provisioning.MesaRows | Backend/app/Services/SupabaseService.php:158-168 | The loop yields `numMesas` rows when that is positive, and none otherwise. |
| Provisioning.BuildMesaInserts | Backend/app/Services/SupabaseService.php:158-168 | The `for` loop collects exactly the rows `MesaRows` describes. |
| Provisioning.MesaRowsShape | Backend/app/Services/SupabaseService.php:158-168 | With `n` requested tables there are `n` rows. Row `i` is numbered `i` in three digits, seats 4, is `Disponible` and belongs to the new restaurant. |
| Provisioning.MesaTokensDistinct | Backend/app/Services/SupabaseService.php:160-164 | When the UUIDs drawn are distinct, no two tables share a QR token. |
| Provisioning.MenuRows | Backend/app/Services/SupabaseService.php:180-189 | The loop succeeds if and only if every item is complete. It then yields one row per item, in order. |
| Provisioning.BuildMenuInserts | Backend/app/Services/SupabaseService.php:180-189 | The `foreach` loop collects exactly the rows `MenuRows` describes, or fails on an incomplete item. |
| Provisioning.MenuRowsShape | Backend/app/Services/SupabaseService.php:180-189 | One row per item, in order, tagged with the restaurant, copying name, price and category. An absent description is stored as null. |
| Provisioning.RegisterFullRestaurant | Backend/app/Services/SupabaseService.php:130-220 | The method's new store and outcome are those of the provisioning specification. |
| Provisioning.ProvisionSucceeds | Backend/app/Services/SupabaseService.php:137-219 | When every step is accepted: `n` tables are created, numbered from 001, and one menu row is added per item. The result reports `n` tables and the first table's token and menu URL. |
| Provisioning.ProvisionWithoutIdWritesOnlyRestaurant | Backend/app/Services/SupabaseService.php:142-147 | When no restaurant id comes back, only the restaurant row is written: no manager, table or menu row. |
| Provisioning.ProvisionKeepsEarlierRows | Backend/app/Services/SupabaseService.php:137-197 | Nothing is rolled back. Every table keeps its earlier rows, and only the restaurant, manager, table and menu tables can grow. |
| Provisioning.ProvisionOutcome | Backend/app/Services/SupabaseService.php:137-200 | The outcome is a registration if and only if every step is accepted, at least one table is requested and every item is complete. Refused tables leave the table and menu tables unchanged. |
| Provisioning.ProvisionFailureCause | Backend/app/Services/SupabaseService.php:139-196 | Each failure happens exactly when every earlier step went through and its own step did not, in the order restaurant, id, manager, tables, items, menu, first table. |
| Provisioning.ProvisionFailureFrames | Backend/app/Services/SupabaseService.php:139-196 | A failure skips every later write. A refused restaurant writes nothing, a missing id or refused manager writes no manager, table or dish, refused tables write no table or dish, and a failing menu writes no dish. |
| Provisioning.ProvisionZeroTables | Backend/app/Services/SupabaseService.php:158-200 | With no tables requested, the restaurant, its manager and its menu are written, and then reading the first table's token fails. |
| Store.Db.constructor | Backend/app/Services/SupabaseService.php:15-25 | A store holds exactly the tables it is given. |
| Store.Db.PostRestaurante | Backend/app/Services/SupabaseService.php:86-90 | An accepted insert appends the row with the next serial id and returns it. A refused insert changes nothing and returns no row. |
| Store.Db.PostStaff | Backend/app/Services/SupabaseService.php:86-90 | The same, on the staff table of a role. |
| Store.Db.PostMesas | Backend/app/Services/SupabaseService.php:86-90 | An accepted multi-row insert appends the tables with consecutive ids. A refused one changes nothing. |
| Store.Db.PostDishes | Backend/app/Services/SupabaseService.php:86-90 | The same, for menu rows. |
| Store.Db.PostPedido | Backend/app/Services/SupabaseService.php:86-90 | An accepted insert appends the order with the next id and returns it. A refused one changes nothing. |
| Store.Db.PostDetalles | Backend/app/Services/SupabaseService.php:86-90 | An accepted insert appends the detail rows with consecutive ids. A refused one changes nothing. |
| Store.Db.PostAtencion | Backend/app/Services/SupabaseService.php:86-90 | An accepted insert appends the request row. A refused one changes nothing. |
| Store.Db.PatchStaffToken | Backend/app/Services/SupabaseService.php:92-95 | An accepted update sets `remember_token` on the staff rows whose key is the id. A refused one changes nothing. |
| Store.Db.PatchAdminToken | Backend/app/Services/SupabaseService.php:92-95 | The same, on the administrators' table. |
| Store.Db.PatchDish | Backend/app/Services/SupabaseService.php:92-95 | An accepted update changes the sent columns of the dishes whose key is the id. A refused one changes nothing. |
| Store.Db.DropDish | Backend/app/Services/SupabaseService.php:97-100 | An accepted delete drops the dishes whose key is the id. A refused one changes nothing. |
| Store.InsertStaffFresh | Backend/app/Http/Controllers/UserManagementController.php:72-77 | A new staff row takes an id no row of its table had, and the serial stays ahead of every id. |
| Store.InsertMesasFresh | Backend/app/Services/SupabaseService.php:170-177 | New tables take ids no earlier table had, and the serial stays ahead. |
| Store.InsertPedidoFresh | Backend/app/Http/Controllers/ComensalController.php:169-176 | A new order takes an id no earlier order had, and the serial stays ahead. |
| Comensal.MesaDeQrFirst | Backend/app/Http/Controllers/ComensalController.php:28-49 | A QR token matches no table if and only if no table carries it. Otherwise it resolves to the first table that does. |
| Comensal.ValidarQrAnswers | Backend/app/Http/Controllers/ComensalController.php:38-55 | The token is valid if and only if some table carries it, and the answer is 404 exactly when none does. A valid answer reports the first such table's number. |
| Comensal.GetMenuScoped | Backend/app/Http/Controllers/ComensalController.php:96-120 | The menu holds exactly the dishes of the matched table's restaurant. The restaurant, when present, is that restaurant. The menu is found if and only if the token is valid. |
| Comensal.DetalleRows | Backend/app/Http/Controllers/ComensalController.php:180-188 | The rows are built if and only if `pedido` is present and every line is complete. There is then one row per line, in order. |
| Comensal.BuildDetalles | Backend/app/Http/Controllers/ComensalController.php:180-188 | The `foreach` loop collects exactly the rows `DetalleRows` describes, or throws. |
| Comensal.RegistrarPedido | Backend/app/Http/Controllers/ComensalController.php:136-217 | The method's new store and reply are those of the order specification. |
| Comensal.SolicitarMesero | Backend/app/Http/Controllers/ComensalController.php:222-263 | The method's new store and reply are those of the waiter-call specification. |
| Comensal.SolicitarCuenta | Backend/app/Http/Controllers/ComensalController.php:268-312 | The method's new store and reply are those of the bill-request specification. |
| Comensal.UnknownQrWritesNothing | Backend/app/Http/Controllers/ComensalController.php:151-156 | An unknown token gets 404 from the order endpoint, and from the waiter and bill requests, with nothing written. |
| Comensal.PedidoRowWritten | Backend/app/Http/Controllers/ComensalController.php:161-169 | Once the order is accepted, exactly one order row is added. It is `Pendiente`, for the table's restaurant, and holds the client's total and the table's id. |
| Comensal.DetallesWritten | Backend/app/Http/Controllers/ComensalController.php:179-192 | With an id echoed back and complete lines, one detail row per line is added, in order, copying the dish, the quantity and the price. |
| Comensal.NoDetallesWithoutId | Backend/app/Http/Controllers/ComensalController.php:175-192 | No detail row is written when no usable order id comes back or the order has no lines. |
| Comensal.AvisoAfterPedido | Backend/app/Http/Controllers/ComensalController.php:196-201 | Once the order is registered, the last row appended is the `Nuevo pedido` notice, `Pendiente`, for the table, whether or not detail rows were written. |
| Comensal.SolicitarMeseroTwice | Backend/app/Http/Controllers/ComensalController.php:244-249 | Two waiter calls append two pending `Solicitar mesero` rows. Nothing is merged. |
| Comensal.SolicitarCuentaRow | Backend/app/Http/Controllers/ComensalController.php:292-298 | The bill request appends `Pagar - <metodo_pago>` with the note `Total: $<total>`. |
| Auth.ResolvePriority | Backend/app/Http/Controllers/AuthController.php:72-84 | A user is found if and only if some table has a match. A lower-priority table is used only when every higher one is empty, and the user is that table's first row. |
| Auth.TipoTags | Backend/app/Http/Controllers/AuthController.php:72-84 | There is one tag per kind of user: `gerente`, `mesero`, `cocina` (for cooks) and `admin`, and nothing else. |
| Auth.LoginKeyAsWrittenMisses | Backend/app/Http/Controllers/AuthController.php:36-40 | As written, every table is searched for an `eq.` address without its first three characters. No row holding the typed address is a candidate, and a row is found exactly when one holds the shortened address. |
| Auth.EqAccountNotFound | Backend/app/Http/Controllers/AuthController.php:36-40 | The account `eq.ana@cafe.mx`, alone in the managers' table, is not found as written, and the intended lookup finds it. |
| Auth.EqAddressIsEmail | Backend/app/Http/Controllers/AuthController.php:28-31 | Such an address passes the `email` rule, so the request does reach the lookup. |
| Auth.LoginKey | Backend/app/Http/Controllers/AuthController.php:36-62 | The corrected lookup key is exactly the address typed. |
| Auth.LoginKeysAgree | Backend/app/Http/Controllers/AuthController.php:36-62 | The lookup as written and the corrected one agree on every address that does not start with `eq.`. |
| Auth.LoginKeyExact | Backend/app/Http/Controllers/AuthController.php:36-62 | With the corrected lookup, each table's candidates are exactly its rows with that address. |
| Auth.FindByKeyHoldsKey | Backend/app/Http/Controllers/AuthController.php:36-84 | Whoever the lookup finds holds the key as their address. |
| Auth.FindPrincipalAsWrittenStripped | Backend/app/Http/Controllers/AuthController.php:36-84 | The lookup as written is the corrected lookup of the address with one leading `eq.` removed. Off that prefix the two agree, and for an `eq.` address it finds only someone holding a different address. |
| Auth.Login | Backend/app/Http/Controllers/AuthController.php:20-196 | The method's new store and reply are those of the login specification, which uses the corrected lookup. |
| Auth.UnknownUserWritesNothing | Backend/app/Http/Controllers/AuthController.php:86-92 | With the corrected lookup, an address no table holds gets 401 `Usuario no encontrado`, and nothing is written. |
| Auth.LoginAsWrittenStripped | Backend/app/Http/Controllers/AuthController.php:20-196 | As written, a login with an `eq.` address goes on as the corrected login of the shortened address, while the rules see the typed one. Any other address logs in exactly as corrected. A successful login of an `eq.` address never describes an account holding that address. |
| Auth.UnknownUserWritesNothingAsWritten | Backend/app/Http/Controllers/AuthController.php:36-92 | As written, an address that no table holds once a leading `eq.` is removed gets 401 `Usuario no encontrado`, and nothing is written. |
| Auth.LoginFoundUser | Backend/app/Http/Controllers/AuthController.php:104-187 | A successful login describes the user found, with that user's address. |
| Auth.WrongPasswordWritesNothing | Backend/app/Http/Controllers/AuthController.php:95-101 | A password that does not check against the found user's hash gets 401 `Contraseña incorrecta`, and nothing is written. |
| Auth.TokenReturnedIsStored | Backend/app/Http/Controllers/AuthController.php:104-187 | A successful login returns a 60-character token, and that token is what the principal's row stores. |
| Auth.WriteTokenFrame | Backend/app/Http/Controllers/AuthController.php:108-181 | Writing the token touches only the principal's own table, and in it only the rows with the principal's key. |
| Auth.TokenStored | Backend/app/Http/Controllers/AuthController.php:110 | After the write, the principal's row holds the token. |
| Auth.LoginUserShape | Backend/app/Http/Controllers/AuthController.php:108-181 | Staff users carry their table's tag and the restaurant looked up by their restaurant id. Administrators carry their department. |
| Auth.InvalidLoginIsServerError | Backend/app/Http/Controllers/AuthController.php:28-31 | A request failing the rules is answered with 500, since the check runs inside the `try`, and nothing is written. |
| Validation.EmailOf | Backend/app/Http/Controllers/UserManagementController.php:59 | An address made of a non-empty local part and domain, with neither `@` nor blanks, passes the `email` rule. |
| Validation.IntegerTextRoundTrip | Backend/app/Http/Controllers/UserManagementController.php:61 | Every integer written in decimal passes `integer` and reads back as itself. |
| Validation.NumericCentsFormat | Backend/app/Http/Controllers/GerenteDashboardController.php:187 | A price printed with two decimals passes `numeric` with the same amount. |
| Validation.BlankNotRequired | Backend/app/Http/Controllers/RestauranteController.php:22 | A blank string never passes `required`, whatever the length bound. |
| Dashboard.CountsDisjoint | Backend/app/Http/Controllers/GerenteDashboardController.php:40-41 | Two different statuses are never counted for the same table. |
| Dashboard.StatsCountsBounded | Backend/app/Http/Controllers/GerenteDashboardController.php:38-41 | Free plus taken tables never exceed the restaurant's tables. |
| Dashboard.StatsCountsCover | Backend/app/Http/Controllers/GerenteDashboardController.php:38-41 | When every table is free or taken, the two counts add up to the number of tables. |
| Dashboard.StatsDefaults | Backend/app/Http/Controllers/GerenteDashboardController.php:30-60 | A missing aggregate row, or a row without the field, reads as 0. Otherwise the field's value is reported. |
| Dashboard.NewTablesAreFree | Backend/app/Http/Controllers/GerenteDashboardController.php:40-41 | Adding `Disponible` tables for a restaurant raises its free count by their number and leaves its taken count alone. |
| Dashboard.StatsDateFilterIsEquality | Backend/app/Http/Controllers/GerenteDashboardController.php:22-29 | As written, the date filter reaches the query as an equality with the text `gte.<day>T00:00:00`. |
| Dashboard.StatsFiltersDesignated | Backend/app/Http/Controllers/GerenteDashboardController.php:22-29 | The two filters name plain columns; the restaurant one reads as an equality on the id, and the date one as an equality on the text `gte.<day>T00:00:00`. |
| Dashboard.NoonOrderMissedAsWritten | Backend/app/Http/Controllers/GerenteDashboardController.php:44-51 | An order placed at 12:30 on the day is not among the day's orders as written. It is with the corrected lower bound. |
| Dashboard.CondValueRoundTrip | Backend/app/Http/Controllers/GerenteDashboardController.php:27 | The right-hand side of a corrected condition contains no `=` and reads back as that condition. |
| Dashboard.GteValueRoundTrip | Backend/app/Http/Controllers/GerenteDashboardController.php:27 | `gte.<encoded v>` reads back as the lower bound `v`. |
| Dashboard.CondRoundTrip | Backend/app/Http/Controllers/GerenteDashboardController.php:25-28 | Every corrected parameter reads back as its column and condition. |
| Dashboard.StatsCondsRoundTrip | Backend/app/Http/Controllers/GerenteDashboardController.php:25-28 | The corrected statistics query reads back as the restaurant equality and a lower bound on the order time. |
| Dashboard.ReadsScoped | Backend/app/Http/Controllers/GerenteDashboardController.php:72-145 | The tables, menu, waiters and cooks listed are exactly the rows whose restaurant is the one asked for. |
| Dashboard.GetQrCodes | Backend/app/Http/Controllers/GerenteDashboardController.php:156-165 | There is one entry per table of the restaurant. |
| Dashboard.QrCodesDescribeTables | Backend/app/Http/Controllers/GerenteDashboardController.php:159-165 | Entry `k` copies table `k`'s id and number. The `data` parameter of its URL decodes back to the table's code. |
| Dashboard.QrUrlInjective | Backend/app/Http/Controllers/GerenteDashboardController.php:163 | Different codes give different image URLs. |
| Dashboard.AddMenu | Backend/app/Http/Controllers/GerenteDashboardController.php:180-211 | The method's new store and reply are those of `AddMenuSpec`. |
| Dashboard.AddMenuOutcome | Backend/app/Http/Controllers/GerenteDashboardController.php:183-202 | The reply is 201 if and only if the body passes the rules and the insert is accepted. The created row is then appended and listed on the restaurant's menu. Otherwise the reply is 500 and nothing changes. |
| Dashboard.AddedDishFields | Backend/app/Http/Controllers/GerenteDashboardController.php:183-191 | The created row carries the submitted fields within the rules' bounds. A price sent as two-decimal text is stored as those cents. |
| Dashboard.UpdateMenu | Backend/app/Http/Controllers/GerenteDashboardController.php:213-242 | The method's new store and reply are those of `UpdateMenuSpec`. |
| Dashboard.UpdateMenuOutcome | Backend/app/Http/Controllers/GerenteDashboardController.php:216-240 | The reply is 200 if and only if the body passes the rules and the update is accepted. A refused update answers 500 and changes nothing. |
| Dashboard.UpdateTouchesOnlyThatDish | Backend/app/Http/Controllers/GerenteDashboardController.php:223 | Only the dish with that id changes, and of it only the sent columns. Every other row and table is unchanged. |
| Dashboard.UpdateUnknownDishSucceeds | Backend/app/Http/Controllers/GerenteDashboardController.php:223-233 | Updating an id no dish has answers 200 and changes nothing. |
| Dashboard.DeleteMenu | Backend/app/Http/Controllers/GerenteDashboardController.php:244-260 | The method's new store and reply are those of `DeleteMenuSpec`. |
| Dashboard.DeleteRemovesExactly | Backend/app/Http/Controllers/GerenteDashboardController.php:247-252 | The reply is always 200. An accepted delete removes exactly the dishes with that id, keeps the others in their order (the menu becomes the old menu filtered by `id != idMenu`), and touches no other table. |
| Dashboard.DeleteIdempotent | Backend/app/Http/Controllers/GerenteDashboardController.php:247 | Deleting a dish twice is deleting it once. |
| UserManagement.RegistrarStaff | Backend/app/Http/Controllers/UserManagementController.php:55-84 | The check-then-insert's new store and reply are those of the registration specification. |
| UserManagement.RegistrarMesero | Backend/app/Http/Controllers/UserManagementController.php:55-84 | The same, on the waiters' table. |
| UserManagement.RegistrarCocinero | Backend/app/Http/Controllers/UserManagementController.php:86-115 | The same, on the cooks' table. |
| UserManagement.RegistrarOutcome | Backend/app/Http/Controllers/UserManagementController.php:57-83 | The reply is 201 if and only if the rules pass, the address is free in that table and the insert is accepted. It is 409 if and only if the rules pass and the address is taken, and 422 if and only if the rules fail. Any answer but 201 leaves the store as it was. |
| UserManagement.RegisteredRow | Backend/app/Http/Controllers/UserManagementController.php:72-83 | A registration appends exactly one row to that table: the reported id, the submitted name and address, and the hash of the password. No other table changes. |
| UserManagement.EmailsStayUnique | Backend/app/Http/Controllers/UserManagementController.php:64-77 | Registration keeps addresses unique within the table it writes. |
| UserManagement.UniquenessPerTable | Backend/app/Http/Controllers/UserManagementController.php:64 | What the other staff tables hold does not change the reply, so a waiter may share a cook's address. |
| UserManagement.GetMeseroScoped | Backend/app/Http/Controllers/UserManagementController.php:11-33 | Not found if and only if no waiter has the id. Otherwise the view is of that waiter, with exactly their requests and their restaurant's orders and tables. |
| UserManagement.GetCocineroScoped | Backend/app/Http/Controllers/UserManagementController.php:35-53 | Not found if and only if no cook has the id. Otherwise the orders are exactly those of the cook's restaurant. |
| Restaurante.Status | Backend/app/Http/Controllers/RestauranteController.php:52-55 | The status is 201 if and only if the restaurant was registered. |
| Restaurante.Registrar | Backend/app/Http/Controllers/RestauranteController.php:18-63 | The method's new store and reply are those of the registration specification. |
| Restaurante.InvalidWritesNothing | Backend/app/Http/Controllers/RestauranteController.php:21-32 | A request the validator rejects gets 422, and the store is not touched. |
| Restaurante.NumMesasIgnored | Backend/app/Http/Controllers/RestauranteController.php:50 | The outcome is the same for any `num_mesas`. A successful registration creates exactly one table. |
| Restaurante.ManagerPasswordHashed | Backend/app/Http/Controllers/RestauranteController.php:41-45 | The manager row holds the hash of the submitted password, which checks against it. |
| Restaurante.MenuDefaultsToEmpty | Backend/app/Http/Controllers/RestauranteController.php:47 | An absent menu behaves like an empty one. |
| Cart.Incrementar | Frontend/src/modulos/comensal/MenuComensal.jsx:44-48 | The `map` keeps the length and the dish at every position. |
| Cart.AgregarSpec | Frontend/src/modulos/comensal/MenuComensal.jsx:41-52 | A dish already present keeps the length. A new dish is appended last with quantity 1. Its quantity rises by one and no other dish's changes, and the dishes become the old ones plus this one. One line per dish and positive quantities are kept, and the total rises by the price. |
| Cart.Ajustar | Frontend/src/modulos/comensal/MenuComensal.jsx:55-61 | The `map` keeps the length and the dish at every position. |
| Cart.ModificarSpec | Frontend/src/modulos/comensal/MenuComensal.jsx:54-62 | No line is dropped and the dishes keep their positions. Only that dish's quantity moves, by `cambio` if and only if the result stays positive; otherwise it is unchanged. The invariants are kept. |
| Cart.EliminarSpec | Frontend/src/modulos/comensal/MenuComensal.jsx:64-66 | Exactly the other dishes' lines are kept, in order, and none of that dish is left. The total falls by exactly the removed lines. The invariants are kept, and removing an absent dish changes nothing. |
| Cart.CalcularTotalReadsBack | Frontend/src/modulos/comensal/MenuComensal.jsx:68-70 | The total text reads back as the sum of price times quantity. The empty order's total is `0.00`. |
| Cart.EnviarPedidoSpec | Frontend/src/modulos/comensal/MenuComensal.jsx:72-99 | Nothing is sent if and only if the order is empty. A sent body carries the QR code, the order and its total. The order is cleared if and only if the send is accepted. |
| Cart.SentLinesComplete | Frontend/src/modulos/comensal/MenuComensal.jsx:82-86 | Every line sent carries the dish, the quantity and the price, so the order endpoint builds one detail row per line. |
| Cart.Categoria | Frontend/src/modulos/comensal/MenuComensal.jsx:139 | A dish's group key is never empty. |
| Cart.MenuPorCategoriaSpec | Frontend/src/modulos/comensal/MenuComensal.jsx:138-143 | One group per category, with distinct keys. Each group holds exactly its category's dishes in menu order. Each dish lies in exactly its own category's group. |
| RestaurantView.RenderMenuPartition | Frontend/src/restaurantview.jsx:76-88 | The two lists together are the menu, as a multiset and in number. The first holds exactly the `Platos Fuertes` items and the second exactly the rest. |
| RestaurantView.MockMenuFuertes | Frontend/src/restaurantview.jsx:5-11 | On the demo menu the `Platos Fuertes` heading lists the tacos and the enchiladas, in menu order. |
| RestaurantView.MockMenuOtros | Frontend/src/restaurantview.jsx:5-11 | The other heading lists the soup, the horchata and the flan, in menu order. |
| RestaurantView.RestaurantView.constructor | Frontend/src/restaurantview.jsx:20-22 | The screen starts with an empty cart, status `Pendiente` and the menu panel. |
| RestaurantView.RestaurantView.CalculateTotal | Frontend/src/restaurantview.jsx:46-48 | The total of an empty cart is 0. |
| RestaurantView.RestaurantView.AddToCart | Frontend/src/restaurantview.jsx:35-44 | Adds one of the item, as the diner order does: an existing line grows, or a new line is appended. One line per item is kept, the total rises by the price, and nothing else changes. |
| RestaurantView.RestaurantView.PlaceOrder | Frontend/src/restaurantview.jsx:50-62 | An empty cart only raises the reminder and changes no state. Otherwise the cart is emptied, the status becomes `En Proceso` and the consumption panel is shown. |
| RestaurantView.RestaurantView.ShowMenu | Frontend/src/restaurantview.jsx:134 | Shows the menu panel and changes nothing else. |
| RestaurantView.RestaurantView.ShowConsumo | Frontend/src/restaurantview.jsx:140 | Shows the consumption panel and changes nothing else. |
| RegistroForm.Coerce | Frontend/src/modulos/registrarRestaurante.jsx:49 | A number input never yields 0 and `''` yields 1. Any other result is what `parseInt` reads. |
| RegistroForm.CoercePrinted | Frontend/src/modulos/registrarRestaurante.jsx:49 | A positive decimal comes through unchanged, and so does its negative. `0` and `-0` become 1. |
| RegistroForm.ParseIntNumeral | Frontend/src/modulos/registrarRestaurante.jsx:49 | `parseInt` reads a numeral whole, as its decimal value. |
| RegistroForm.ParseIntNegated | Frontend/src/modulos/registrarRestaurante.jsx:49 | `parseInt` reads a numeral after a leading `-` as the negated value. |
| RegistroForm.CoerceNotANumber | Frontend/src/modulos/registrarRestaurante.jsx:49 | Text with no digit where the number should start becomes 1. |
| RegistroForm.FieldOfPrefix | Frontend/src/modulos/registrarRestaurante.jsx:52 | The field of `part.rest` is what follows the first dot, up to the next one. |
| RegistroForm.HandleChangeSpec | Frontend/src/modulos/registrarRestaurante.jsx:47-70 | A name under `restaurante.` or `gerente.` sets that field of that part to the coerced value, leaving every other field and the other part alone. Any other name changes nothing. |
| RegistroForm.InitialWellFormed | Frontend/src/modulos/registrarRestaurante.jsx:12-23 | The initial form has the page's fields, and its table count is a number. |
| RegistroForm.PageEventKeepsForm | Frontend/src/modulos/registrarRestaurante.jsx:47-70 | Changes from the page's own inputs keep exactly those fields, and the table count stays a number. |
| RegistroForm.RestauranteEventKeepsForm | Frontend/src/modulos/registrarRestaurante.jsx:47-70 | A restaurant input sets its own field, so the form keeps its fields and a numeric table count. |
| RegistroForm.GerenteEventKeepsForm | Frontend/src/modulos/registrarRestaurante.jsx:47-70 | A manager input sets its own field and leaves the restaurant part alone, so the form stays well formed. |
| RegistroForm.HandleMenuChange | Frontend/src/modulos/registrarRestaurante.jsx:29-35 | Only the named field of the row at the index is replaced. The length and every other row are unchanged. |
| RegistroForm.AddMenuItem | Frontend/src/modulos/registrarRestaurante.jsx:37-39 | Appends exactly one empty row. |
| RegistroForm.WithoutIndexSpec | Frontend/src/modulos/registrarRestaurante.jsx:43 | The filter drops exactly the row at the index, or nothing when the index is out of range. |
| RegistroForm.RemoveMenuItemSpec | Frontend/src/modulos/registrarRestaurante.jsx:41-45 | With more than one row, exactly that row is dropped and the others keep their order. A single row is never removed. |
| RegistroForm.ItemsNeverEmpty | Frontend/src/modulos/registrarRestaurante.jsx:25-45 | The list starts non-empty, and no edit empties it. |
| RegistroForm.ValidMenuItemsSpec | Frontend/src/modulos/registrarRestaurante.jsx:77-79 | The kept rows are exactly the complete ones. None is kept if and only if no row is complete. |
| RegistroForm.HandleSubmitSpec | Frontend/src/modulos/registrarRestaurante.jsx:72-135 | Nothing is sent if and only if no row is complete or the count is below 1, and the menu error comes first. A sent body carries the count and exactly the complete rows. The notice shows if and only if the request is accepted, and a refusal without a message shows the generic text. |
| RegistroForm.SubmitCarriesForm | Frontend/src/modulos/registrarRestaurante.jsx:96-106 | The body's names, address and password are the form's. |
| RegistroForm.NegativeCountStopped | Frontend/src/modulos/registrarRestaurante.jsx:88-92 | A negative count typed into the number input gets through coercion. It is stopped only by the submit check. |
| LoginForm.HandleLoginSpec | Frontend/src/modulos/formularios/login.jsx:40-77 | A body that is not JSON shows the response error and stores nothing. A token is stored if and only if the answer is ok and JSON, and a route is taken only after that. A refusal shows the server's message, or the generic text. |
| LoginForm.RouteOfSpec | Frontend/src/modulos/formularios/login.jsx:55-70 | The route for each tag. A manager without a restaurant throws. Any tag outside the four is rejected, and only such a tag. |
| LoginForm.IdRouteInjective | Frontend/src/modulos/formularios/login.jsx:57-63 | Different ids give different dashboard routes. |
| LoginForm.EndpointRepliesRoute | Frontend/src/modulos/formularios/login.jsx:49-70 | Every successful reply of the login endpoint is stored, then routed by its tag with no error. An administrator goes to `/admin/dashboard`. |

## Behaviour worth noting

- **Validation failures answer 500, not Laravel's usual 422.** `addMenu`, `updateMenu` and `login` run `validate` inside a `try` whose `catch (\Exception)` also catches the validation exception (`Dashboard.AddMenuOutcome`, `Auth.InvalidLoginIsServerError`).
- **The requested table count is dropped.** `RestauranteController::registrar` does not pass `num_mesas` on, so a registration always creates the single default table (`Restaurante.NumMesasIgnored`).

## Left out

- **HTTP and the hosted API.** The transport, TLS options, CORS headers and response parsing are not modelled. A write's success is a flag the caller supplies.
- **Failed reads.** Reads from the REST API are assumed to answer with rows; a failed `select` is not modelled.
- **Aggregates.** The `SUM(total)` and `COUNT(*)` figures are opaque inputs. The code never requests them: `select` drops its column list, so those column lists never reach the service (`Gateway.SelectIgnoresColumns`). What the service returns for the plain query is not modelled.
- **Cryptography and randomness.** `bcrypt`/`Hash::make`/`Hash::check` are an uninterpreted digest. `Str::random(60)` and `Str::uuid()` are values the caller supplies, and table-token distinctness is a hypothesis on them.
- **Clock.** `now()` and `date('Y-m-d')` are uninterpreted text supplied by the caller.
- **Floating point.** PHP `(float)` casts and JavaScript prices are integer cents. `toFixed(2)` is exact on cents, so float rounding is not modelled.
- **QR images.** The QR image and its base64 encoding are left out, since they are library calls with no rule to state. The result keeps the first table's token and menu URL.
- **Laravel validator.** Its internals are predicates over a `Value` datatype (absent, null, string, number). The `email` rule is approximated as one `@` with non-blank text on both sides. `numeric` accepts digits or `[-]digits.dd`.
- **ConvertEmptyStringsToNull and TrimStrings middleware.** Neither is modelled. An empty string reaches the rules as an empty string, and surrounding blanks are not trimmed before the rules or before storage. So where the application would accept and store `ana@cafe.mx` for the input `"ana@cafe.mx "`, the model's `email` rule refuses it: `UserManagement.RegistrarStaff` answers 422 and `Auth.Login` answers 500. A `nombre` or `descripcion` with surrounding blanks is stored untrimmed.
- **The `remember_token` column.** It is assumed to exist on every staff table and on the administrators' table.
- **Row targets in the store.** The store's token and dish updates address rows by the table's own key, which is the corrected target. The as-written `id=eq.` target is kept only in `Gateway.IdTargetMissesCocineroKey`.
- **Concurrency.** Concurrent requests are not modelled, so the race between the e-mail check and the insert is outside the model.
- **Unique e-mail index.** The unique index on the cooks' e-mail column (Backend/database/migrations/2025_11_16_000001_create_cocinero_table.php:14) is not used. Uniqueness is proved from the check instead.
- **React.** Rendering, hooks, `fetch`, `alert`, navigation side effects and the loading flag are left out. A screen's outcome is a value holding what it would store, show and send.
- **`requestWaiter` and `handlePayment`** in `restaurantview.jsx` are left out, because they only log and raise an alert.
- **The diner screen's own effects.** Only the backend side of waiter calls and bill requests is modelled. The same holds for menu loading on the diner screen.
- **Other screens.** `GerenteDashboard.jsx`, `MeseroForm.jsx`, `CocineroForm.jsx`, `RestauranteDashboard.jsx`, `RegistroExito.jsx`, `Notificacion.jsx`, `main.jsx` and `App.jsx` are not part of this model. They are fetch calls and form state around the modelled endpoints.
- **Routing and schema.** `routes/api.php` only maps URLs to controller methods, and the migration is schema only.
- **`parseInt` prefixes.** For a text starting `0x`, `parseInt` reads `0`, which becomes 1 after coercion. The model reads the leading digits in base 10 and agrees on that case. Other radix behaviour is outside the model.
- **Category key order and inherited keys.** `menuPorCategoria` builds a plain JS object, which lists integer-like keys first. The model keeps groups in order of first appearance, which agrees for every non-numeric category name. A category named after an `Object.prototype` member (`constructor`, `toString`, `valueOf`, `hasOwnProperty`, `__proto__` and the like) finds an inherited value in `acc[cat]`, so `push` throws and the menu does not render. The model groups such names like any other, so `Cart.MenuPorCategoriaSpec` describes the page only for category names outside that set.
- **Route ids as text.** Route segments such as `{id}` and `idRestaurante` are natural numbers in the model. The source receives them as strings and concatenates them into `eq.` filters, so a non-numeric segment is not expressible.
- **Auth.Login:** looks the address up with the corrected key, the typed address itself. The source passes the raw address to `select`, which removes one leading `eq.`, so an `eq.` address is looked up without it (see Findings). That as-written login is `Auth.LoginSpecAsWritten`, related to the corrected one by `Auth.LoginAsWrittenStripped` and `Auth.UnknownUserWritesNothingAsWritten`.
- **RegistroForm.HandleMenuChange:** requires the index to be a row on the page. An out-of-range index would make a sparse JS array, which the page's inputs never produce.
- **RegistroForm.HandleSubmitSpec:** requires a form built by the page's own inputs (`WellFormed`), so the table count is present and a number.
- **RestaurantView.RestaurantView.CalculateTotal:** its own contract states only the empty case. Its value is the diner order's `Cart.Total`, which `RestaurantView.RestaurantView.AddToCart` relates to each addition.

## Findings

| source | as written | input that shows it | evidently intended | confidence | as-written member | corrected member |
|---|---|---|---|---|---|---|
| Backend/app/Http/Controllers/AuthController.php:36-40 | `login` passes the raw address as the filter value, and `select` strips a leading `eq.` from it | an account with address `eq.ana@cafe.mx` is looked up as `ana@cafe.mx`: it is never found, and when an account `ana@cafe.mx` exists, that account is logged in instead | filter on the address exactly, as the other controllers do with `'eq.' . $value` | not executed | Auth.LoginKeyAsWrittenMisses | Auth.LoginKey |
| Backend/app/Http/Controllers/GerenteDashboardController.php:25-28 | the date filter `gte.<day>T00:00:00` is prefixed with `eq.` by `select`, so it becomes an equality on that text | an order at `<day>T12:30:00` is not counted among the day's orders | a lower bound: orders from the start of the day on | not executed | Dashboard.NoonOrderMissedAsWritten | Dashboard.StatsCondsRoundTrip |
| Backend/app/Services/SupabaseService.php:94 | `update` and `delete` filter on `id`, yet the cooks' table's key is `id_cocinero` and it has no `id` column | a cook's login: the token update is addressed to a column that table does not have, so no row receives the token | filter on the table's own key column | not executed | Gateway.IdTargetMissesCocineroKey | Gateway.KeyTargetNamesKey |

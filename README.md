# Wolt smart-produce warehouse: stock ledger, order coordinator and telemetry

This project is a Dafny model of the decision logic of a small warehouse
monitor and its companion inventory manager.

**The monitor** (`inventory_gui.py`):
- It keeps a ledger of four products and their weights in kilograms.
- It keeps the set of products that have a refill order in flight.
- Each tick it consumes a little of every product and publishes a status line per product.
- In auto mode it orders a refill for every product under 25 kg that has no order in flight.
- It shows a status tier for the product in focus.
- It handles refill requests that arrive on the order topic.

**The inventory manager** (`app_manager.py`):
- It subscribes to both topics.
- It parses each status line back into a (product, weight) record and logs it.
- It notes order lines.

Each module and its contents:

| Module | What it models |
|---|---|
| `Strings` (`strings.dfy`) | The Python string operations the code relies on: `in`, `split`, `strip` and `lower`. |
| `Decimal` (`decimal.dfy`) | The `:.2f` rendering of a weight, and the part of `float()` that reads such a rendering back. |
| `Telemetry` (`telemetry.dfy`) | The status line format and the manager's `on_message` handler. The handler returns the outcome, including the one record it would log. |
| `Inventory` (`inventory.dfy`) | `InventoryManager` as a class. `stock` is a map and `activeOrders` a set, and the methods update both in place. |
| `Warehouse` (`warehouse.dfy`) | The monitor as a class `WarehouseApp`: the tick, order placement, refills, remote requests and the status tier. |

How the monitor's surroundings are represented:
- Each publish appends a `Message` to the `outbox` field. A message is a status update or an order request, and its `Topic` and `Payload` give what goes on the wire.
- The random draws are parameters with their ranges as preconditions.
- The connection flag is a field.
- The focused product and the auto-mode switch are parameters.

The tick is specified against the function `TickOutbox`, which gives what one connected tick publishes. Lemmas about that function prove three things:
- one status line per product, in stock order;
- an AUTO order exactly when the reorder rule fires, and at most one per product;
- no second order before the refill arrives.

The round trip is proved for every product name without `'|'`, without `": "`, without surrounding white space and not ending in `':'`: the manager logs exactly the name, and the weight to within half a hundredth. The last condition is needed because the line puts a blank after the name. A name ending in `':'` therefore creates a second `": "`, and `split(": ")[1]` cuts the name short: `"X:"` is logged as `"X"` (`ColonNameCut`).

The monitor subscribes to the same order topic it publishes on. So an order it places comes back to it as a remote request, and the handler refills the ordered product at once (`OrderEchoRefills`). That refill comes on top of the delayed refill the order itself schedules.

Three behaviours of the code worth knowing:
- A remote request targets the last matching product in stock order, because every match overwrites the previous one.
- A payload such as `"garbage"` contains neither `"Product:"` nor `"refill"`, so it is ignored without a parse.
- A remote refill never adds its product to the in-flight set. It removes the product from the set through `add_weight`, like any refill.

## Model

| member | source | states |
|---|---|---|
| Inventory.Consume | inventory_gui.py:46-48 | The new weight is the old weight less the draw, clamped at zero. It is never negative. When the old weight and the draw are both non-negative it is never above the old weight, and when both are positive it is strictly below it. |
| Inventory.InventoryManager.constructor | inventory_gui.py:38-41 | The ledger starts with Tomatoes 50, Cucumbers 40, Apples 35 and Bananas 30, in that order, with no order in flight. |
| Inventory.InventoryManager.SimulateConsumption | inventory_gui.py:43-48 | Every product is consumed by its own draw in [0.3, 0.9]. Afterwards no weight is negative, the key set and the in-flight set are unchanged, and the ledger stays valid. |
| Inventory.InventoryManager.AddWeight | inventory_gui.py:50-56 | A known product gains exactly `amount`, leaves the in-flight set, and the call returns true; nothing else changes. An unknown product returns false and changes nothing. |
| Warehouse.Classify | inventory_gui.py:203-212 | Auto-ordering iff auto mode is on and the weight is under 25. Low stock iff the weight is under 30 and it is not auto-ordering. Monitoring iff the weight is at least 30. |
| Warehouse.ClassifyExamples | inventory_gui.py:17-18 | The tiers on both sides of the two thresholds, with auto mode on and off. |
| Warehouse.OrderPayloadInjective | inventory_gui.py:221-222 | Two order requests have the same payload iff they are the same request. The status topic and the order topic differ. |
| Warehouse.Message.Payload | inventory_gui.py:191-192 | The wire text of a message. A status message is the product's status line with its weight rendered to two decimals; an order request is its label, " refill for " and its target. What the manager makes of this text is stated by StatusPayloadLogged and OrderPayloadNoted. |
| Warehouse.Message.Topic | inventory_gui.py:222 | A message goes to the status topic iff it is a status update; order requests go to the order topic. |
| Warehouse.OrderTarget | inventory_gui.py:217 | The order target is either the focused product or the product passed in, and it is empty only when the focused product is: an empty product name counts as missing. |
| Warehouse.Reorders | inventory_gui.py:194-195 | The reorder rule: auto mode is on, the weight is under 25 and the product has no order in flight. TickOrders states what it makes a tick publish. |
| Warehouse.StatusPayloadLogged | inventory_gui.py:191-192 | The manager logs a status message for a well-formed name under that name, with the weight to within 0.005. |
| Warehouse.StatusHundredthsLogged | inventory_gui.py:192 | A status line whose weight is rendered from a count of hundredths is logged with exactly that many hundredths of a kilogram. |
| Warehouse.TickOutbox | inventory_gui.py:189-197 | What one connected tick publishes: between |ps| and 2·|ps| messages in all, for |ps| products. TickStatusLines and TickOrders characterise its contents. |
| Warehouse.TickStatusLines | inventory_gui.py:189-192 | A tick's status lines are exactly one per product, in stock order, each carrying the product's weight after consumption. |
| Warehouse.TickOrders | inventory_gui.py:193-197 | A tick publishes an AUTO order for a product iff the product is in stock order, auto mode is on, its weight is under 25 and it had no order in flight. A tick never publishes a MANUAL order. |
| Warehouse.TickOrdersOnce | inventory_gui.py:193-197 | Within one tick each product is ordered at most once. |
| Warehouse.SecondTickNoReorder | inventory_gui.py:194-195 | Once a tick has ordered a product, the next tick does not order it again, whatever its weight, until a refill removes it from the in-flight set. |
| Warehouse.LastMatch | inventory_gui.py:149-152 | The remote-refill target is the focused product or one of the stock products. |
| Warehouse.LastMatchNone | inventory_gui.py:148-152 | With no matching product the target is the focused product. |
| Warehouse.LastMatchLast | inventory_gui.py:148-152 | Otherwise the target is the matching product that has no matching product after it in stock order. |
| Warehouse.MatchProduct | inventory_gui.py:149-152 | The matching loop returns exactly `LastMatch` of the products, the lower-cased payload and the focus. |
| Warehouse.OrderPayloadNoted | app_manager.py:31-32 | The manager notes every order request as an action, provided the target's name does not contain "Product:". |
| Warehouse.RefillInOrder | inventory_gui.py:221-222 | Every order request payload, manual or automatic, contains the word "refill" right after its label, which is what the manager matches on. |
| Warehouse.LoweredOrder | inventory_gui.py:148-151 | Lower-cased, an order payload still contains "refill" and still contains the lower-cased target, which are the two tests the remote-request handler makes. |
| Warehouse.OrderEchoRefills | inventory_gui.py:141-152 | The monitor's own order payload, heard back on the order topic, passes the "refill" test. It targets the ordered product unless a later product also matches. |
| Warehouse.WarehouseApp.constructor | inventory_gui.py:60-65 | The monitor starts disconnected, with nothing published and a fresh ledger. |
| Warehouse.WarehouseApp.PlaceOrder | inventory_gui.py:214-223 | The call is a no-op while disconnected or when the target is already in flight. Otherwise the target joins the in-flight set and exactly one `MANUAL`/`AUTO` order for it is published. The target is the product given, or the focused product when it is missing or empty. |
| Warehouse.WarehouseApp.PerformRefill | inventory_gui.py:225-229 | A refill adds its draw in [20, 30] to any known product, whether or not it has an order in flight. It ends any such order and leaves an unknown product alone. |
| Warehouse.WarehouseApp.OnMqttMessage | inventory_gui.py:144-155 | Retained messages and payloads without a case-insensitive "refill" change nothing. Otherwise the last-matching product, or the focused one, is refilled at once, without consulting the in-flight set or adding to it. |
| Warehouse.WarehouseApp.ReportProduct | inventory_gui.py:190-197 | One product's turn in a tick: its status line, then an AUTO order exactly when the reorder rule fires against the current in-flight set. |
| Warehouse.WarehouseApp.ReportNext | inventory_gui.py:189-197 | One turn of the publishing loop extends the outbox from the tick's output for the products before `i` to its output for the products up to `i`, and the in-flight set likewise. |
| Warehouse.WarehouseApp.PublishTick | inventory_gui.py:189-197 | The publishing half of a tick appends exactly `TickOutbox` to the outbox. The in-flight set grows by exactly the auto-mode products under 25, and the weights do not change. |
| Warehouse.WarehouseApp.ExecutionLoop | inventory_gui.py:183-212 | A disconnected tick changes nothing and returns no tier. A connected tick consumes every product once and publishes `TickOutbox`. It extends the in-flight set by the reorder targets and returns the focused product's tier. |
| Telemetry.StatusLine | inventory_gui.py:191-192 | A status line starts with "Product:", so the manager takes it down the status branch. |
| Telemetry.Field | app_manager.py:26-27 | The second `": "`-field of a segment exists iff the segment contains `": "`. |
| Telemetry.ParseStatus | app_manager.py:25-27 | A parse can succeed only when the payload contains `'|'`. |
| Telemetry.ParseSegments | app_manager.py:25-27 | A parse can succeed only when there are at least two `'|'`-segments. |
| Telemetry.OnMessage | app_manager.py:19-32 | A payload with "Product:" is logged or dropped, never noted as an order, even when it also says "refill". Without it, the payload is noted iff it contains a lower-case "refill", and is ignored otherwise. A "Product:" payload is logged iff its parse succeeds, and the logged record is exactly what the parse returned. |
| Telemetry.WeightField | app_manager.py:26-27 | The weight segment ` Weight: <f>` yields `f` itself when `f` has no `'|'`, no `':'` and no white space. |
| Telemetry.ProductField | app_manager.py:26 | The product segment `Product: <name> ` yields the name when the name is well formed. |
| Telemetry.Fixed2Rendered | inventory_gui.py:192 | A two-decimal rendering is such plain text and reads back as the weight in hundredths. |
| Telemetry.ParseStatusLine | app_manager.py:25-27 | Parsing a status line with a well-formed name and rendered weight text yields that name and the weight the text denotes. |
| Telemetry.StatusRoundTrip | app_manager.py:23-28 | The manager logs exactly one record per status line: the name and the weight the monitor wrote. |
| Telemetry.LoggedNameHasNoBar | app_manager.py:25-26 | A logged product name never contains `'|'`. |
| Telemetry.BarInNameBreaksRoundTrip | inventory_gui.py:192 | A product name containing `'|'` is never logged under that name. |
| Telemetry.ColonNameCut | app_manager.py:26 | A name ending in `':'` (and otherwise well-formed, with no other `':'`) loses that colon: the blank after it makes a second `": "`, so the manager logs the name without it. |
| Telemetry.ExampleStatusLogged | app_manager.py:23-28 | The status line for Apples at 33.50 kg is logged as (Apples, 33.5). |
| Telemetry.ExampleMissingSegment | app_manager.py:24-30 | A status line without a weight segment is dropped, with no error escaping. |
| Telemetry.ExampleGarbage | app_manager.py:23-32 | `"garbage"` is ignored. |
| Telemetry.ExampleRefillCase | app_manager.py:31-32 | The manager's "refill" test is case-sensitive: "Refill" is ignored and "refill" is noted. |
| Decimal.NatDigits | inventory_gui.py:192 | The integer part of a rendered weight is a non-empty run of digits with no leading zero. |
| Decimal.NatDigitsValue | app_manager.py:27 | Reading those digits back gives the number. |
| Decimal.Fixed2 | inventory_gui.py:192 | `:.2f` of a weight given in hundredths: the integer part, a point, the tens and units of the cents. Its shape and read-back are stated by Fixed2Shape and Fixed2RoundTrip. |
| Decimal.Fixed2Shape | inventory_gui.py:192 | A rendered weight is digits, a point, and exactly two digits. |
| Decimal.Hundredths | inventory_gui.py:192 | The rounded weight is within half a hundredth of the weight. |
| Decimal.ParseFloat | app_manager.py:27 | An accepted number is non-empty. It is non-negative unless it starts with '-', and non-positive when it does. |
| Decimal.ParseUnsigned | app_manager.py:27 | The unsigned part of `float()`: digits with at most one point and at least one digit. An accepted number is never negative. |
| Decimal.ParseFloatSyntax | app_manager.py:27 | An accepted number has only digits and points, at most a leading sign, and at least one digit. |
| Decimal.ParsePointed | app_manager.py:27 | Digits, a point and digits read back as the whole part plus the fraction moved right by its number of digits. |
| Decimal.TwoDigits | app_manager.py:27 | Two fraction digits denote that many hundredths. |
| Decimal.Fixed2RoundTrip | app_manager.py:27 | Reading back a rendered weight gives exactly the weight in hundredths. |
| Strings.Find | app_manager.py:25 | A position found is an occurrence of the separator. |
| Strings.FindSpec | app_manager.py:25 | The position found is the leftmost occurrence, and there is none iff the separator does not occur. |
| Strings.Split | app_manager.py:25 | A split has at least one piece. |
| Strings.SplitCount | app_manager.py:25-26 | A split has exactly one piece iff the separator does not occur, which is when indexing piece 1 fails. |
| Strings.SplitJoin | app_manager.py:25 | Joining the pieces of a split with the separator gives the string back. |
| Strings.SplitPiecesFree | app_manager.py:25 | No piece of a split contains the separator. |
| Strings.SplitPieceChars | app_manager.py:26 | Every character of a piece is a character of the string. |
| Strings.SplitAfterPrefix | app_manager.py:25-26 | `a + sep + b` splits into `a` and the pieces of `b` when `a` holds no character that starts `sep`. |
| Strings.Contains | app_manager.py:23 | Python's `t in s` for strings: `t` occurs somewhere in `s` as a contiguous run. FindSpec and ContainsPastPrefix relate it to the search `split` makes. |
| Strings.ContainsPastPrefix | app_manager.py:23 | A prefix with no character starting `sep` cannot hold an occurrence of it, so `sep` occurs in `a + b` iff it occurs in `b`. |
| Strings.Strip | app_manager.py:26-27 | Stripping leaves no white space at either end, changes a string without white space not at all, and adds no character. |
| Strings.StripTrailingBlank | app_manager.py:26 | A name without surrounding white space, followed by blanks, strips back to the name. |
| Strings.LowerChar | inventory_gui.py:148 | Upper-case ASCII letters become lower-case letters; every other character is unchanged. |
| Strings.Lower | inventory_gui.py:148 | Lower-casing keeps the length and maps each character. |
| Strings.LowerKeeps | inventory_gui.py:148 | Text with no upper-case ASCII letter is still found at the same place after lower-casing. |

## Left out

- The PyQt5 interface is not modelled: the window, the style sheet, labels, the alert box, `update_display_only`, `toggle_auto`, `closeEvent`, and the connect/disconnect feedback. The tier that the status label shows is returned by `ExecutionLoop` instead.
- The MQTT transport is not modelled (`toggle_connection`, `on_mqtt_connect`, the subscriptions, `main`). The connection flag is set by the environment. The `mqtt_client is None` test is folded into that flag.
- The 4-second `QTimer` before a refill is not modelled. The caller invokes `PerformRefill` later, and all calls are serialised, so the race between the network thread and the interface thread is out of scope.
- The randomness is not modelled. The consumption draws and the refill amount are parameters within their ranges.
- `save_to_db` is not modelled: the CSV file, its header, the timestamp, and a failure while writing, which the handler's `except` would swallow. A successful parse is modelled as the single `Logged` record.
- Payload decoding is not modelled. Payloads are taken as already-decoded strings, so the lossy `decode("utf-8", "ignore")` is not captured.
- `print` output is not modelled.
- mqtt_init.py is not part of this model. It only resolves the broker address and defines topic constants.
- Decimal.ParseFloat: accepts only an optional sign, decimal digits and at most one point. Python's `float` also accepts exponents, `inf`/`nan`, underscores, surrounding white space and non-ASCII decimal digits (`float("٣.٥") == 3.5`), so a status line carrying those forms is modelled as dropped.
- Decimal.Hundredths: weights are exact reals rounded half up to hundredths. The source formats the nearest binary double, and `:.2f` rounds an exact tie to even. So 33.125, which is exactly representable, renders as "33.12" in the source and as "33.13" here. The IEEE behaviour is not captured.
- Strings.Strip: removes ASCII white space only, not the other Unicode white space Python's `strip` also removes.
- Strings.LowerChar: maps ASCII capitals only. A non-ASCII capital such as 'Ä' stays unchanged, where Python lower-cases it.
- Strings.Lower: maps ASCII letters only, not the other Unicode case mappings Python's `lower` performs.
- Inventory.InventoryManager.AddWeight: takes `amount` as a required parameter. The source's default of 25.0 is not modelled because no caller relies on it: every refill passes its own random amount.
- Warehouse.WarehouseApp.ExecutionLoop: requires the focused product to be a ledger key. The source raises `KeyError` otherwise, but its focus always comes from a list of those keys.

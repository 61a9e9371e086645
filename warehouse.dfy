/**
 * The warehouse monitor's coordinator: the periodic tick (consume, publish a
 * status line per product, reorder automatically), manual and automatic order
 * placement, refills, remote refill requests and the status tier shown for the
 * product in focus. Publishing appends to an outbox; the connection flag is
 * set by the transport, which is outside this model.
 */
module Warehouse {
  import opened Strings
  import opened Decimal
  import opened Telemetry
  import opened Inventory

  const AutoReorderThreshold: real := 25.0
  const LowStockThreshold: real := 30.0
  const TopicStatus: string := "wolt/warehouse/smart_produce/inventory/sts"
  const TopicOrder: string := "wolt/warehouse/smart_produce/inventory/order"

  /** What the status label shows for the product in focus. */
  datatype Tier = AutoOrdering | LowStock | Monitoring

  /** The tiers are tried in priority order: automatic ordering below the
      reorder threshold when auto mode is on, then low stock below the
      low-stock threshold, otherwise monitoring. */
  function Classify(w: real, autoMode: bool): (t: Tier)
    ensures t == AutoOrdering <==> autoMode && w < AutoReorderThreshold
    ensures t == LowStock <==> w < LowStockThreshold && !(autoMode && w < AutoReorderThreshold)
    ensures t == Monitoring <==> w >= LowStockThreshold
  {
    if w < AutoReorderThreshold && autoMode then AutoOrdering
    else if w < LowStockThreshold then LowStock
    else Monitoring
  }

  /** Classifier examples below, between and above the two thresholds. */
  lemma {:induction false} ClassifyExamples()
    ensures Classify(24.0, true) == AutoOrdering
    ensures Classify(24.0, false) == LowStock
    ensures Classify(27.0, true) == LowStock && Classify(27.0, false) == LowStock
    ensures Classify(31.0, true) == Monitoring && Classify(31.0, false) == Monitoring
  {
  }

  /** One publish on the bus: a status line for a product at a weight, or an
      order request. `Topic` and `Payload` give what goes on the wire. */
  datatype Message =
    | StatusUpdate(product: string, weight: real)
    | OrderRequest(manual: bool, target: string)
  {
    /** Status lines go to the status topic and only there. */
    function Topic(): (t: string)
      ensures t == TopicStatus <==> StatusUpdate?
    {
      if StatusUpdate? then TopicStatus else TopicOrder
    }

    /** `"Product: {p} | Weight: {w:.2f}"` or `"{MANUAL|AUTO} refill for {target}"`. */
    function Payload(): string
      requires StatusUpdate? ==> weight >= 0.0
    {
      match this
      case StatusUpdate(p, w) => StatusLine(p, Fixed2(Hundredths(w)))
      case OrderRequest(m, t) => OrderLabel(m) + " refill for " + t
    }
  }

  function OrderLabel(manual: bool): string
  {
    if manual then "MANUAL" else "AUTO"
  }

  /** Status and order messages go to different topics, and distinct order
      requests have distinct payloads, so subscribers can tell them apart. */
  lemma {:induction false} OrderPayloadInjective(m1: Message, m2: Message)
    requires m1.OrderRequest? && m2.OrderRequest?
    ensures m1.Payload() == m2.Payload() <==> m1 == m2
    ensures TopicStatus != TopicOrder
  {
    var a, b := m1.Payload(), m2.Payload();
    if m1.manual != m2.manual {
      assert a[0] != b[0];
    } else if a == b {
      var n := |OrderLabel(m1.manual) + " refill for "|;
      assert m1.target == a[n..] && m2.target == b[n..];
    }
    assert |TopicStatus| != |TopicOrder|;
  }

  /** What a subscriber logging status lines records for a status message:
      the product, and the weight to within half a hundredth. */
  lemma {:induction false} StatusPayloadLogged(p: string, w: real)
    requires WellFormedName(p) && w >= 0.0
    ensures OnMessage(StatusUpdate(p, w).Payload()).Logged?
    ensures OnMessage(StatusUpdate(p, w).Payload()).record.product == p
    ensures w - 0.005 < OnMessage(StatusUpdate(p, w).Payload()).record.weight <= w + 0.005
  {
    StatusHundredthsLogged(p, Hundredths(w));
  }

  /** A status line whose weight is rendered from `h` hundredths logs the
      product with exactly `h / 100` kilograms. */
  lemma {:induction false} StatusHundredthsLogged(p: string, h: nat)
    requires WellFormedName(p)
    ensures OnMessage(StatusLine(p, Fixed2(h))) == Logged(Record(p, h as real / 100.0))
  {
    Fixed2Rendered(h);
    StatusRoundTrip(p, Fixed2(h), h as real / 100.0);
  }

  /** The order target: the product passed in, unless it is missing or
      empty (Python treats `""` as false), in which case the focused one. */
  function OrderTarget(product: Option<string>, focus: string): (t: string)
    ensures t == focus || product == Some(t)
    ensures t == "" ==> focus == ""
  {
    if product.Some? && product.value != "" then product.value else focus
  }

  /** The automatic reorder rule for one product during a tick. */
  predicate Reorders(autoMode: bool, w: real, product: string, active: set<string>)
  {
    autoMode && w < AutoReorderThreshold && product !in active
  }

  /** What one connected tick publishes, product by product in stock order:
      the product's status line, then an AUTO order when the rule fires.
      `active` is the set of orders in flight when the tick started. */
  function TickOutbox(ps: seq<string>, stock: map<string, real>, active: set<string>, autoMode: bool): (out: seq<Message>)
    requires forall p :: p in ps ==> p in stock
    ensures |ps| <= |out| <= 2 * |ps|
  {
    if ps == [] then []
    else
      var p := ps[|ps| - 1];
      TickOutbox(ps[..|ps| - 1], stock, active, autoMode)
        + [StatusUpdate(p, stock[p])]
        + (if Reorders(autoMode, stock[p], p, active) then [OrderRequest(false, p)] else [])
  }

  /** The products a tick puts in flight when auto mode is on. */
  function AutoTargets(ps: seq<string>, stock: map<string, real>, autoMode: bool): (s: set<string>)
    ensures forall p :: p in s <==> p in ps && p in stock && autoMode && stock[p] < AutoReorderThreshold
  {
    set p | p in ps && p in stock && autoMode && stock[p] < AutoReorderThreshold
  }

  /** How one more product extends a tick: its status line and possible
      order are appended, and it joins the auto targets when under threshold. */
  lemma {:induction false} TickStep(ps: seq<string>, i: nat, stock: map<string, real>, active: set<string>, autoMode: bool)
    requires i < |ps| && forall p :: p in ps ==> p in stock
    ensures TickOutbox(ps[..i + 1], stock, active, autoMode)
      == TickOutbox(ps[..i], stock, active, autoMode) + [StatusUpdate(ps[i], stock[ps[i]])]
         + (if Reorders(autoMode, stock[ps[i]], ps[i], active) then [OrderRequest(false, ps[i])] else [])
    ensures AutoTargets(ps[..i + 1], stock, autoMode)
      == AutoTargets(ps[..i], stock, autoMode)
         + (if autoMode && stock[ps[i]] < AutoReorderThreshold then {ps[i]} else {})
  {
    assert ps[..i + 1][..i] == ps[..i];
    assert ps[..i + 1] == ps[..i] + [ps[i]];
  }

  lemma {:induction false} AppendAssoc<T>(a: seq<T>, b: seq<T>, c: seq<T>, d: seq<T>)
    ensures a + b + c + d == a + (b + c + d)
  {
  }

  /** The status messages among `out`, in order. */
  function StatusLines(out: seq<Message>): seq<Message>
  {
    if out == [] then []
    else StatusLines(out[..|out| - 1]) + (if out[|out| - 1].StatusUpdate? then [out[|out| - 1]] else [])
  }

  /** A tick publishes one status line per product, in stock order, with the
      weight the product has after consumption. */
  lemma {:induction false} TickStatusLines(ps: seq<string>, stock: map<string, real>, active: set<string>, autoMode: bool)
    requires forall p :: p in ps ==> p in stock
    ensures |StatusLines(TickOutbox(ps, stock, active, autoMode))| == |ps|
    ensures forall i :: 0 <= i < |ps| ==>
      StatusLines(TickOutbox(ps, stock, active, autoMode))[i] == StatusUpdate(ps[i], stock[ps[i]])
  {
    if ps != [] {
      var init := ps[..|ps| - 1];
      TickStatusLines(init, stock, active, autoMode);
      TickStatusLast(ps, stock, active, autoMode);
      var lines := StatusLines(TickOutbox(ps, stock, active, autoMode));
      forall i | 0 <= i < |ps|
        ensures lines[i] == StatusUpdate(ps[i], stock[ps[i]])
      {
        if i < |init| {
          assert init[i] == ps[i];
        }
      }
    }
  }

  /** The last product of a tick adds exactly its own status line. */
  lemma {:induction false} TickStatusLast(ps: seq<string>, stock: map<string, real>, active: set<string>, autoMode: bool)
    requires ps != [] && forall p :: p in ps ==> p in stock
    ensures StatusLines(TickOutbox(ps, stock, active, autoMode))
      == StatusLines(TickOutbox(ps[..|ps| - 1], stock, active, autoMode)) + [StatusUpdate(ps[|ps| - 1], stock[ps[|ps| - 1]])]
  {
    var p := ps[|ps| - 1];
    var prefix := TickOutbox(ps[..|ps| - 1], stock, active, autoMode);
    var status := StatusUpdate(p, stock[p]);
    var tail := if Reorders(autoMode, stock[p], p, active) then [OrderRequest(false, p)] else [];
    assert TickOutbox(ps, stock, active, autoMode) == prefix + [status] + tail;
    StatusLinesAppend(prefix + [status], tail);
    StatusLinesAppend(prefix, [status]);
    assert StatusLines([status]) == [status] by { assert [status][..0] == []; }
    assert StatusLines(tail) == [] by {
      if tail != [] { assert tail[..0] == []; }
    }
  }

  lemma {:induction false} StatusLinesAppend(a: seq<Message>, b: seq<Message>)
    ensures StatusLines(a + b) == StatusLines(a) + StatusLines(b)
    decreases |b|
  {
    if b == [] {
      assert a + b == a;
    } else {
      assert (a + b)[..|a + b| - 1] == a + b[..|b| - 1];
      StatusLinesAppend(a, b[..|b| - 1]);
    }
  }

  /** A tick announces an AUTO order for a product exactly when the product
      is in stock order, auto mode is on, its weight after consumption is
      below the reorder threshold and it had no order in flight. It never
      announces a MANUAL order. */
  lemma {:induction false} TickOrders(ps: seq<string>, stock: map<string, real>, active: set<string>, autoMode: bool, q: string)
    requires forall p :: p in ps ==> p in stock
    ensures OrderRequest(false, q) in TickOutbox(ps, stock, active, autoMode)
      <==> q in ps && Reorders(autoMode, stock[q], q, active)
    ensures OrderRequest(true, q) !in TickOutbox(ps, stock, active, autoMode)
  {
    if ps != [] {
      var p := ps[|ps| - 1];
      var init := ps[..|ps| - 1];
      TickOrders(init, stock, active, autoMode, q);
      assert q in ps <==> q in init || q == p by {
        assert ps == init + [p];
      }
    }
  }

  /** Within one tick each product is ordered at most once. */
  lemma {:induction false} TickOrdersOnce(ps: seq<string>, stock: map<string, real>, active: set<string>, autoMode: bool, q: string)
    requires forall p :: p in ps ==> p in stock
    requires Distinct(ps)
    ensures multiset(TickOutbox(ps, stock, active, autoMode))[OrderRequest(false, q)] <= 1
  {
    if ps != [] {
      var p := ps[|ps| - 1];
      var init := ps[..|ps| - 1];
      var tail := if Reorders(autoMode, stock[p], p, active) then [OrderRequest(false, p)] else [];
      TickOrdersOnce(init, stock, active, autoMode, q);
      assert multiset([StatusUpdate(p, stock[p])])[OrderRequest(false, q)] == 0;
      if q == p && tail != [] {
        TickOrders(init, stock, active, autoMode, q);
        assert p !in init;
      }
    }
  }

  /** After a tick has ordered a product, a second tick before the refill
      does not order it again, no matter how low its weight has become. */
  lemma {:induction false} SecondTickNoReorder(ps: seq<string>, stock1: map<string, real>, stock2: map<string, real>,
                            active: set<string>, autoMode: bool, q: string)
    requires forall p :: p in ps ==> p in stock1
    requires forall p :: p in ps ==> p in stock2
    requires OrderRequest(false, q) in TickOutbox(ps, stock1, active, autoMode)
    ensures OrderRequest(false, q) !in TickOutbox(ps, stock2, active + AutoTargets(ps, stock1, autoMode), autoMode)
  {
    TickOrders(ps, stock1, active, autoMode, q);
    TickOrders(ps, stock2, active + AutoTargets(ps, stock1, autoMode), autoMode, q);
  }

  /** The remote-refill target: the last product, in stock order, whose
      lower-cased name occurs in the lower-cased payload; the focused product
      when none does. */
  function LastMatch(ps: seq<string>, lowered: string, focus: string): (r: string)
    ensures r == focus || r in ps
  {
    if ps == [] then focus
    else if Contains(lowered, Lower(ps[|ps| - 1])) then ps[|ps| - 1]
    else LastMatch(ps[..|ps| - 1], lowered, focus)
  }

  /** `LastMatch` picks the focus when no product matches. */
  lemma {:induction false} LastMatchNone(ps: seq<string>, lowered: string, focus: string)
    requires forall i :: 0 <= i < |ps| ==> !Contains(lowered, Lower(ps[i]))
    ensures LastMatch(ps, lowered, focus) == focus
  {
    if ps != [] {
      var init := ps[..|ps| - 1];
      forall i | 0 <= i < |init| ensures !Contains(lowered, Lower(init[i])) {
        assert init[i] == ps[i];
      }
      LastMatchNone(init, lowered, focus);
    }
  }

  /** `LastMatch` picks a matching product when no product after it in
      stock order matches. */
  lemma {:induction false} LastMatchLast(ps: seq<string>, i: nat, lowered: string, focus: string)
    requires i < |ps| && Contains(lowered, Lower(ps[i]))
    requires forall j :: i < j < |ps| ==> !Contains(lowered, Lower(ps[j]))
    ensures LastMatch(ps, lowered, focus) == ps[i]
  {
    var last := |ps| - 1;
    if i < last {
      var init := ps[..last];
      assert !Contains(lowered, Lower(ps[last]));
      assert init[i] == ps[i];
      forall j | i < j < |init| ensures !Contains(lowered, Lower(init[j])) {
        assert init[j] == ps[j];
      }
      LastMatchLast(init, i, lowered, focus);
    }
  }

  /** The matching loop of the remote-message handler. */
  method MatchProduct(ps: seq<string>, lowered: string, focus: string) returns (target: string)
    ensures target == LastMatch(ps, lowered, focus)
  {
    target := focus;
    for i := 0 to |ps|
      invariant target == LastMatch(ps[..i], lowered, focus)
    {
      assert ps[..i + 1][..i] == ps[..i];
      if Contains(lowered, Lower(ps[i])) {
        target := ps[i];
      }
    }
    assert ps[..|ps|] == ps;
  }

  /** An order request heard by the telemetry client, which subscribes to the
      order topic too: it is noted as an action as long as the target's name
      does not itself contain "Product:". */
  lemma {:induction false} OrderPayloadNoted(manual: bool, t: string)
    requires !Contains(t, "Product:")
    ensures OnMessage(OrderRequest(manual, t).Payload()).ActionNoted?
  {
    var prefix := OrderLabel(manual) + " refill for ";
    var payload := OrderRequest(manual, t).Payload();
    assert payload == prefix + t;
    assert 'P' !in prefix;
    ContainsPastPrefix(prefix, t, "Product:");
    RefillInOrder(manual, t);
  }

  /** "refill" stands right after the label of an order payload. */
  lemma {:induction false} RefillInOrder(manual: bool, t: string)
    ensures OccursAt(OrderLabel(manual) + " refill for " + t, "refill", |OrderLabel(manual)| + 1)
  {
    var prefix := OrderLabel(manual) + " refill for ";
    var k := |OrderLabel(manual)| + 1;
    if manual {
      assert prefix == "MANUAL refill for " && k == 7;
    } else {
      assert prefix == "AUTO refill for " && k == 5;
    }
    assert prefix[k..k + 6] == "refill";
    assert (prefix + t)[k..k + 6] == prefix[k..k + 6];
  }

  /** The app subscribes to the order topic it publishes on, so an order it
      places comes back to it as a remote request: the lower-cased payload
      asks for a refill, and the target is the ordered product unless a
      product later in stock order also matches the payload. */
  lemma {:induction false} OrderEchoRefills(ps: seq<string>, i: nat, manual: bool, focus: string)
    requires i < |ps|
    requires forall j :: i < j < |ps| ==>
      !Contains(Lower(OrderRequest(manual, ps[i]).Payload()), Lower(ps[j]))
    ensures Contains(Lower(OrderRequest(manual, ps[i]).Payload()), "refill")
    ensures LastMatch(ps, Lower(OrderRequest(manual, ps[i]).Payload()), focus) == ps[i]
  {
    var lowered := Lower(OrderRequest(manual, ps[i]).Payload());
    assert OrderRequest(manual, ps[i]).Payload() == OrderLabel(manual) + " refill for " + ps[i];
    LoweredOrder(manual, ps[i]);
    LastMatchLast(ps, i, lowered, focus);
  }

  /** The lower-cased order payload still says "refill" and still contains
      the lower-cased target. */
  lemma {:induction false} LoweredOrder(manual: bool, t: string)
    ensures Contains(Lower(OrderLabel(manual) + " refill for " + t), "refill")
    ensures Contains(Lower(OrderLabel(manual) + " refill for " + t), Lower(t))
  {
    var prefix := OrderLabel(manual) + " refill for ";
    RefillInOrder(manual, t);
    LowerKeeps(prefix + t, "refill", |OrderLabel(manual)| + 1);
    LowerAppend(prefix, t);
    ContainsSuffix(Lower(prefix), Lower(t));
  }

  class WarehouseApp {
    const logic: InventoryManager
    var isConnected: bool
    /** Everything published so far, oldest first. */
    var outbox: seq<Message>

    ghost predicate Valid()
      reads this, logic
    {
      logic.Valid() && logic.NonNegative()
    }

    constructor ()
      ensures Valid() && fresh(logic)
      ensures !isConnected && outbox == []
      ensures logic.products == ["Tomatoes", "Cucumbers", "Apples", "Bananas"]
      ensures logic.stock == map["Tomatoes" := 50.0, "Cucumbers" := 40.0, "Apples" := 35.0, "Bananas" := 30.0]
      ensures logic.activeOrders == {}
    {
      logic := new InventoryManager();
      isConnected := false;
      outbox := [];
    }

    /** Place a MANUAL or AUTO order: nothing happens while disconnected or
        when the target already has an order in flight; otherwise the target
        joins the active set and exactly one order message is published. The
        delayed refill it schedules is the caller's later `PerformRefill`. */
    method PlaceOrder(manual: bool, product: Option<string>, focus: string) returns (placed: bool)
      requires Valid()
      modifies this, logic
      ensures isConnected == old(isConnected) && logic.stock == old(logic.stock)
      ensures placed <==> old(isConnected) && OrderTarget(product, focus) !in old(logic.activeOrders)
      ensures placed ==> logic.activeOrders == old(logic.activeOrders) + {OrderTarget(product, focus)}
      ensures placed ==> outbox == old(outbox) + [OrderRequest(manual, OrderTarget(product, focus))]
      ensures !placed ==> logic.activeOrders == old(logic.activeOrders) && outbox == old(outbox)
      ensures !placed || OrderTarget(product, focus) in logic.stock ==> Valid()
    {
      if !isConnected {
        return false;
      }
      var target := if product.Some? && product.value != "" then product.value else focus;
      if target in logic.activeOrders {
        return false;
      }
      logic.activeOrders := logic.activeOrders + {target};
      outbox := outbox + [OrderRequest(manual, target)];
      return true;
    }

    /** A refill adds its draw to any known product, whether or not an order
        is in flight for it, and ends that order; an unknown product is left
        alone. */
    method PerformRefill(product: string, added: real) returns (restocked: bool)
      requires Valid() && 20.0 <= added <= 30.0
      modifies logic
      ensures Valid()
      ensures restocked <==> product in old(logic.stock)
      ensures restocked ==> logic.stock == old(logic.stock)[product := old(logic.stock)[product] + added]
      ensures restocked ==> logic.activeOrders == old(logic.activeOrders) - {product}
      ensures !restocked ==> logic.stock == old(logic.stock) && logic.activeOrders == old(logic.activeOrders)
    {
      restocked := logic.AddWeight(product, added);
    }

    /** A message on the order topic: retained messages and payloads without
        a case-insensitive "refill" are ignored; otherwise the matched product
        (or the focused one) is refilled at once, without consulting or
        adding to the active set. Returns the product refilled. */
    method OnMqttMessage(retain: bool, payload: string, focus: string, added: real) returns (target: Option<string>)
      requires Valid() && 20.0 <= added <= 30.0
      modifies logic
      ensures Valid()
      ensures retain || !Contains(Lower(payload), "refill") ==>
        target == None && logic.stock == old(logic.stock) && logic.activeOrders == old(logic.activeOrders)
      ensures !retain && Contains(Lower(payload), "refill") ==>
        target == Some(LastMatch(logic.products, Lower(payload), focus))
      ensures target.Some? && target.value in old(logic.stock) ==>
        logic.stock == old(logic.stock)[target.value := old(logic.stock)[target.value] + added]
        && logic.activeOrders == old(logic.activeOrders) - {target.value}
      ensures target.Some? && target.value !in old(logic.stock) ==>
        logic.stock == old(logic.stock) && logic.activeOrders == old(logic.activeOrders)
    {
      if retain {
        return None;
      }
      var lowered := Lower(payload);
      if Contains(lowered, "refill") {
        var product := MatchProduct(logic.products, lowered, focus);
        var _ := PerformRefill(product, added);
        return Some(product);
      }
      return None;
    }

    /** The body of the tick loop for one product: publish its status line,
        then place an AUTO order when auto mode is on, the weight is under the
        reorder threshold and no order is in flight. */
    method ReportProduct(product: string, autoMode: bool, focus: string)
      requires Valid() && isConnected && product in logic.stock && product != ""
      modifies this, logic
      ensures Valid() && isConnected && logic.stock == old(logic.stock)
      ensures outbox == old(outbox) + [StatusUpdate(product, logic.stock[product])]
        + (if Reorders(autoMode, logic.stock[product], product, old(logic.activeOrders))
           then [OrderRequest(false, product)] else [])
      ensures logic.activeOrders == old(logic.activeOrders)
        + (if autoMode && logic.stock[product] < AutoReorderThreshold then {product} else {})
    {
      var weight := logic.stock[product];
      outbox := outbox + [StatusUpdate(product, weight)];
      if autoMode && weight < AutoReorderThreshold && product !in logic.activeOrders {
        var placed := PlaceOrder(false, Some(product), focus);
      }
    }

    /** One step of the publishing loop: with the products before `i`
        already reported, report product `i`. */
    method ReportNext(i: nat, autoMode: bool, focus: string, ghost outbox0: seq<Message>, ghost active0: set<string>)
      requires Valid() && isConnected && i < |logic.products|
      requires logic.activeOrders == active0 + AutoTargets(logic.products[..i], logic.stock, autoMode)
      requires outbox == outbox0 + TickOutbox(logic.products[..i], logic.stock, active0, autoMode)
      modifies this, logic
      ensures Valid() && isConnected && logic.stock == old(logic.stock)
      ensures logic.activeOrders == active0 + AutoTargets(logic.products[..i + 1], logic.stock, autoMode)
      ensures outbox == outbox0 + TickOutbox(logic.products[..i + 1], logic.stock, active0, autoMode)
    {
      var product := logic.products[i];
      TickStep(logic.products, i, logic.stock, active0, autoMode);
      assert product !in AutoTargets(logic.products[..i], logic.stock, autoMode);
      ghost var done := TickOutbox(logic.products[..i], logic.stock, active0, autoMode);
      ghost var before := outbox;
      ReportProduct(product, autoMode, focus);
      AppendAssoc(outbox0, done, [StatusUpdate(product, logic.stock[product])], outbox[|before| + 1..]);
    }

    /** The publishing half of a connected tick: every product's status line
        in stock order, each followed by an AUTO order when the reorder rule
        fires; the products ordered join the active set. */
    method PublishTick(autoMode: bool, focus: string)
      requires Valid() && isConnected
      modifies this, logic
      ensures Valid() && isConnected && logic.stock == old(logic.stock)
      ensures outbox == old(outbox) + TickOutbox(logic.products, logic.stock, old(logic.activeOrders), autoMode)
      ensures logic.activeOrders == old(logic.activeOrders) + AutoTargets(logic.products, logic.stock, autoMode)
    {
      ghost var stock1 := logic.stock;
      ghost var active0 := logic.activeOrders;
      ghost var outbox0 := outbox;
      var i := 0;
      while i < |logic.products|
        invariant 0 <= i <= |logic.products|
        invariant Valid() && isConnected
        invariant logic.stock == stock1
        invariant logic.activeOrders == active0 + AutoTargets(logic.products[..i], stock1, autoMode)
        invariant outbox == outbox0 + TickOutbox(logic.products[..i], stock1, active0, autoMode)
      {
        ReportNext(i, autoMode, focus, outbox0, active0);
        i := i + 1;
      }
      assert logic.products[..i] == logic.products;
    }

    /** One tick. While disconnected it does nothing. Connected, it runs one
        consumption pass, publishes one status line per product in stock
        order and an AUTO order for every product under the reorder
        threshold with none in flight (when auto mode is on), and returns the
        tier of the focused product. */
    method ExecutionLoop(autoMode: bool, focus: string, draws: seq<real>) returns (tier: Option<Tier>)
      requires Valid() && focus in logic.stock && ValidDraws(draws, |logic.products|)
      modifies this, logic
      ensures Valid() && isConnected == old(isConnected)
      ensures !isConnected ==>
        (tier == None && outbox == old(outbox)
         && logic.stock == old(logic.stock) && logic.activeOrders == old(logic.activeOrders))
      ensures isConnected ==> logic.stock.Keys == old(logic.stock.Keys)
      ensures isConnected ==> forall i :: 0 <= i < |logic.products| ==>
        logic.stock[logic.products[i]] == Consume(old(logic.stock)[logic.products[i]], draws[i])
      ensures isConnected ==>
        outbox == old(outbox) + TickOutbox(logic.products, logic.stock, old(logic.activeOrders), autoMode)
      ensures isConnected ==>
        logic.activeOrders == old(logic.activeOrders) + AutoTargets(logic.products, logic.stock, autoMode)
      ensures isConnected ==> tier == Some(Classify(logic.stock[focus], autoMode))
    {
      if !isConnected {
        return None;
      }
      logic.SimulateConsumption(draws);
      PublishTick(autoMode, focus);
      tier := Some(Classify(logic.stock[focus], autoMode));
    }
  }
}

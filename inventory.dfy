/**
 * The stock ledger: a fixed set of products, each with a weight in kilograms,
 * and the set of products that have a refill order in flight.
 */
module Inventory {

  /** One consumption step on a weight: take `d` off and clamp at zero. The
      result is the least non-negative weight not below `w - d`. */
  function Consume(w: real, d: real): (r: real)
    ensures r >= 0.0 && r >= w - d
    ensures r == 0.0 || r == w - d
    ensures w >= 0.0 && d >= 0.0 ==> r <= w
    ensures w > 0.0 && d > 0.0 ==> r < w
  {
    if w - d < 0.0 then 0.0 else w - d
  }

  /** Each of the random draws of one consumption pass lies in [0.3, 0.9]. */
  predicate ValidDraws(draws: seq<real>, n: nat)
  {
    |draws| == n && forall i :: 0 <= i < n ==> 0.3 <= draws[i] <= 0.9
  }

  predicate Distinct(s: seq<string>)
  {
    forall i, j :: 0 <= i < j < |s| ==> s[i] != s[j]
  }

  class InventoryManager {
    /** The keys of the stock dictionary in insertion order, which is the
        order every loop over the dictionary visits them. */
    const products: seq<string>
    var stock: map<string, real>
    var activeOrders: set<string>

    /** One entry per product, every product has a name, and only products
        can have an order in flight. */
    ghost predicate Valid()
      reads this
    {
      && Distinct(products)
      && "" !in products
      && (forall p :: p in stock <==> p in products)
      && activeOrders <= stock.Keys
    }

    /** No weight is negative. */
    ghost predicate NonNegative()
      reads this
    {
      forall p :: p in stock ==> stock[p] >= 0.0
    }

    constructor ()
      ensures Valid() && NonNegative()
      ensures products == ["Tomatoes", "Cucumbers", "Apples", "Bananas"]
      ensures stock == map["Tomatoes" := 50.0, "Cucumbers" := 40.0, "Apples" := 35.0, "Bananas" := 30.0]
      ensures activeOrders == {}
    {
      products := ["Tomatoes", "Cucumbers", "Apples", "Bananas"];
      stock := map["Tomatoes" := 50.0, "Cucumbers" := 40.0, "Apples" := 35.0, "Bananas" := 30.0];
      activeOrders := {};
    }

    /** Every product loses its own draw, clamped at zero; afterwards no weight
        is negative, whatever the weights were before. */
    method SimulateConsumption(draws: seq<real>)
      requires Valid() && ValidDraws(draws, |products|)
      modifies this
      ensures Valid() && NonNegative()
      ensures stock.Keys == old(stock.Keys) && activeOrders == old(activeOrders)
      ensures forall i :: 0 <= i < |products| ==>
        stock[products[i]] == Consume(old(stock)[products[i]], draws[i])
    {
      var i := 0;
      while i < |products|
        invariant 0 <= i <= |products|
        invariant stock.Keys == old(stock.Keys) && activeOrders == old(activeOrders)
        invariant forall j :: 0 <= j < i ==> stock[products[j]] == Consume(old(stock)[products[j]], draws[j])
        invariant forall j :: i <= j < |products| ==> stock[products[j]] == old(stock)[products[j]]
      {
        var product := products[i];
        var w := stock[product] - draws[i];
        if w < 0.0 {
          w := 0.0;
        }
        assert forall j :: 0 <= j < |products| && j != i ==> products[j] != product;
        stock := stock[product := w];
        i := i + 1;
      }
      forall p | p in stock ensures stock[p] >= 0.0 {
        var j :| 0 <= j < |products| && products[j] == p;
        assert stock[products[j]] == Consume(old(stock)[products[j]], draws[j]);
      }
    }

    /** A known product gains exactly `amount` and leaves the active set; an
        unknown product changes nothing and is reported with `false`. */
    method AddWeight(product: string, amount: real) returns (ok: bool)
      requires Valid()
      modifies this
      ensures Valid()
      ensures ok <==> product in old(stock)
      ensures ok ==> stock == old(stock)[product := old(stock)[product] + amount]
      ensures ok ==> activeOrders == old(activeOrders) - {product}
      ensures !ok ==> stock == old(stock) && activeOrders == old(activeOrders)
    {
      if product in stock {
        stock := stock[product := stock[product] + amount];
        if product in activeOrders {
          activeOrders := activeOrders - {product};
        }
        return true;
      }
      return false;
    }
  }
}

/**
 * The five models of the storefront, the referential integrity their
 * foreign keys keep, the derived prices, and what `delete()` removes along
 * the `on_delete=CASCADE` chains.
 */
module Models {
  import opened Wrappers
  import opened Tables

  /** A `DateTimeField` value; only its order and its text (see `Utils`) matter. */
  type Time = int

  datatype IngredientGroup = IngredientGroup(name: string)

  /** `group` is the key of an `IngredientGroup`; `cost` is kept as an exact real. */
  datatype Ingredient = Ingredient(name: string, group: nat, cost: real)

  /** A line item: `ingredient` is the key of an `Ingredient`. */
  datatype PizzaIngredient = PizzaIngredient(ingredient: nat, amount: nat)

  /** `ingredients` holds the keys of the line items of the many-to-many relation. */
  datatype Pizza = Pizza(dough: string, ingredients: seq<nat>)

  /** `pizza` is the key of a `Pizza`; `None` is a NULL column. */
  datatype Order = Order(
    email: Option<string>,
    phone: Option<string>,
    name: Option<string>,
    pizza: nat,
    isConfirm: bool,
    isCreated: bool,
    confirmedDate: Option<Time>,
    createdDate: Time)

  /** The whole store, one table per model. */
  datatype Db = Db(
    groups: Table<IngredientGroup>,
    ingredients: Table<Ingredient>,
    pizzaIngredients: Table<PizzaIngredient>,
    pizzas: Table<Pizza>,
    orders: Table<Order>)

  /** Primary keys are unique in every table. */
  ghost predicate KeysUnique(db: Db)
  {
    && IdsIncreasing(db.groups) && IdsIncreasing(db.ingredients)
    && IdsIncreasing(db.pizzaIngredients) && IdsIncreasing(db.pizzas)
    && IdsIncreasing(db.orders)
  }

  /** Every foreign key and every many-to-many link points at a stored row. */
  ghost predicate ForeignKeysResolve(db: Db)
  {
    && (forall r :: r in db.ingredients ==> r.val.group in IdSet(db.groups))
    && (forall r :: r in db.pizzaIngredients ==> r.val.ingredient in IdSet(db.ingredients))
    && (forall r, l :: r in db.pizzas && l in r.val.ingredients ==> l in IdSet(db.pizzaIngredients))
    && (forall r :: r in db.orders ==> r.val.pizza in IdSet(db.pizzas))
  }

  /**
   * The many-to-many table of `Pizza.ingredients` holds each pair
   * (pizza, line item) once, so no pizza lists a line item twice.
   */
  ghost predicate LinksUnique(db: Db)
  {
    forall r :: r in db.pizzas ==> NoDuplicates(r.val.ingredients)
  }

  /** A confirmed order carries its confirmation time. */
  predicate Lifecycle(o: Order)
  {
    o.isConfirm ==> o.confirmedDate.Some?
  }

  /** Costs pass `MinValueValidator(0)`, and every order keeps `Lifecycle`. */
  ghost predicate FieldsValid(db: Db)
  {
    && (forall r :: r in db.ingredients ==> r.val.cost >= 0.0)
    && (forall r :: r in db.orders ==> Lifecycle(r.val))
  }

  ghost predicate Consistent(db: Db)
  {
    KeysUnique(db) && ForeignKeysResolve(db) && LinksUnique(db) && FieldsValid(db)
  }

  /** Every key in the store is below `next`, the next key to hand out. */
  ghost predicate KeysBelow(db: Db, next: nat)
  {
    && IdsBelow(db.groups, next) && IdsBelow(db.ingredients, next)
    && IdsBelow(db.pizzaIngredients, next) && IdsBelow(db.pizzas, next)
    && IdsBelow(db.orders, next)
  }

  /** The row `Order.objects.create(pizza=pizza)` inserts at time `now`: every default applied. */
  function NewOrder(pizza: nat, now: Time): (o: Order)
    ensures o.pizza == pizza && o.createdDate == now
    ensures !o.isConfirm && !o.isCreated && o.confirmedDate.None?
    ensures o.email.None? && o.phone.None? && o.name.None?
    ensures Lifecycle(o)
  {
    Order(None, None, None, pizza, false, false, None, now)
  }

  // ---------------------------------------------------------------- prices

  /** `PizzaIngredient.price`: the ingredient's cost times the amount. */
  function LinePrice(cost: real, amount: nat): (p: real)
    ensures amount == 0 ==> p == 0.0
    ensures cost >= 0.0 ==> p >= 0.0
  {
    cost * amount as real
  }

  /** Every key in `items` names a stored line item whose ingredient is stored. */
  ghost predicate Resolves(db: Db, items: seq<nat>)
  {
    forall l :: l in items ==>
      l in IdSet(db.pizzaIngredients) &&
      Get(db.pizzaIngredients, l).value.ingredient in IdSet(db.ingredients)
  }

  /** `PizzaIngredient.price` of the line item keyed `l`, its ingredient looked up in the store. */
  function ItemPrice(db: Db, l: nat): real
    requires Resolves(db, [l])
  {
    var item := Get(db.pizzaIngredients, l).value;
    LinePrice(Get(db.ingredients, item.ingredient).value.cost, item.amount)
  }

  /** `sum([i.price for i in items])`, which is 0 for no items. */
  function ItemsPrice(db: Db, items: seq<nat>): real
    requires Resolves(db, items)
  {
    if items == [] then 0.0 else ItemPrice(db, items[0]) + ItemsPrice(db, items[1..])
  }

  lemma {:induction false} ItemsPriceAppend(db: Db, a: seq<nat>, b: seq<nat>)
    requires Resolves(db, a) && Resolves(db, b)
    ensures Resolves(db, a + b)
    ensures ItemsPrice(db, a + b) == ItemsPrice(db, a) + ItemsPrice(db, b)
  {
    if a == [] {
      assert a + b == b;
    } else {
      assert (a + b)[1..] == a[1..] + b;
      ItemsPriceAppend(db, a[1..], b);
    }
  }

  /** With every cost non-negative, so is the sum over any line items. */
  lemma {:induction false} ItemsPriceNonNegative(db: Db, items: seq<nat>)
    requires Resolves(db, items) && FieldsValid(db)
    ensures ItemsPrice(db, items) >= 0.0
  {
    if items != [] {
      var item := Get(db.pizzaIngredients, items[0]).value;
      assert Row(item.ingredient, Get(db.ingredients, item.ingredient).value) in db.ingredients;
      ItemsPriceNonNegative(db, items[1..]);
    }
  }

  lemma ConsistentResolves(db: Db, p: Row<Pizza>)
    requires Consistent(db) && p in db.pizzas
    ensures Resolves(db, p.val.ingredients)
  {
    forall l | l in p.val.ingredients
      ensures Get(db.pizzaIngredients, l).value.ingredient in IdSet(db.ingredients)
    {
      assert Row(l, Get(db.pizzaIngredients, l).value) in db.pizzaIngredients;
    }
  }

  /** `Order.price`: the sum of the prices of the order's pizza's line items. */
  function OrderPrice(db: Db, o: Order): (p: real)
    requires Consistent(db) && o.pizza in IdSet(db.pizzas)
    ensures p >= 0.0
    ensures Get(db.pizzas, o.pizza).value.ingredients == [] ==> p == 0.0
  {
    var pizza := Get(db.pizzas, o.pizza).value;
    ConsistentResolves(db, Row(o.pizza, pizza));
    ItemsPriceNonNegative(db, pizza.ingredients);
    ItemsPrice(db, pizza.ingredients)
  }

  // -------------------------------------------------------------- cascades

  /** Each pizza with its links to the line items in `gone` removed. */
  function Unlink(pizzas: Table<Pizza>, gone: set<nat>): (r: Table<Pizza>)
    ensures |r| == |pizzas|
    ensures forall k :: 0 <= k < |r| ==>
      r[k] == Row(pizzas[k].id, pizzas[k].val.(ingredients := Filter(pizzas[k].val.ingredients, l => l !in gone)))
  {
    if pizzas == [] then []
    else
      var p := pizzas[0];
      [Row(p.id, p.val.(ingredients := Filter(p.val.ingredients, l => l !in gone)))] + Unlink(pizzas[1..], gone)
  }

  /** `IngredientGroup.delete()`: the group, its ingredients, their line items and the links to those. */
  function CascadeGroup(db: Db, gid: nat): Db
  {
    var ingredients := Filter(db.ingredients, (r: Row<Ingredient>) => r.val.group != gid);
    var keptIngredients := IdSet(ingredients);
    var items := Filter(db.pizzaIngredients, (r: Row<PizzaIngredient>) => r.val.ingredient in keptIngredients);
    var gone := IdSet(db.pizzaIngredients) - IdSet(items);
    Db(Filter(db.groups, (r: Row<IngredientGroup>) => r.id != gid),
       ingredients, items, Unlink(db.pizzas, gone), db.orders)
  }

  /** `Ingredient.delete()`: the ingredient, its line items and the links to those. */
  function CascadeIngredient(db: Db, iid: nat): Db
  {
    var items := Filter(db.pizzaIngredients, (r: Row<PizzaIngredient>) => r.val.ingredient != iid);
    var gone := IdSet(db.pizzaIngredients) - IdSet(items);
    Db(db.groups, Filter(db.ingredients, (r: Row<Ingredient>) => r.id != iid),
       items, Unlink(db.pizzas, gone), db.orders)
  }

  /** `Pizza.delete()`: the pizza and its orders; its line items stay (the relation is many-to-many). */
  function CascadePizza(db: Db, pid: nat): Db
  {
    Db(db.groups, db.ingredients, db.pizzaIngredients,
       Filter(db.pizzas, (r: Row<Pizza>) => r.id != pid),
       Filter(db.orders, (r: Row<Order>) => r.val.pizza != pid))
  }

  /** Unlinking keeps every pizza and its key, and drops exactly the links into `gone`. */
  lemma UnlinkKeeps(pizzas: Table<Pizza>, gone: set<nat>)
    ensures IdSet(Unlink(pizzas, gone)) == IdSet(pizzas)
    ensures IdsIncreasing(pizzas) ==> IdsIncreasing(Unlink(pizzas, gone))
    ensures forall r, l :: r in Unlink(pizzas, gone) && l in r.val.ingredients ==>
      l !in gone && exists p :: p in pizzas && p.id == r.id && l in p.val.ingredients
  {
    var u := Unlink(pizzas, gone);
    forall x | x in IdSet(u) ensures x in IdSet(pizzas) {
      var k :| 0 <= k < |u| && u[k].id == x;
      assert pizzas[k] in pizzas;
    }
    forall x | x in IdSet(pizzas) ensures x in IdSet(u) {
      var k :| 0 <= k < |pizzas| && pizzas[k].id == x;
      assert u[k] in u;
    }
    forall r, l | r in u && l in r.val.ingredients
      ensures l !in gone && exists p :: p in pizzas && p.id == r.id && l in p.val.ingredients
    {
      var k :| 0 <= k < |u| && u[k] == r;
      assert pizzas[k] in pizzas;
    }
  }

  /** Unlinking removes links, so no pizza gains a duplicate link. */
  lemma UnlinkUnique(pizzas: Table<Pizza>, gone: set<nat>)
    requires forall r :: r in pizzas ==> NoDuplicates(r.val.ingredients)
    ensures forall r :: r in Unlink(pizzas, gone) ==> NoDuplicates(r.val.ingredients)
  {
    var u := Unlink(pizzas, gone);
    forall r | r in u ensures NoDuplicates(r.val.ingredients) {
      var k :| 0 <= k < |u| && u[k] == r;
      assert pizzas[k] in pizzas;
      FilterNoDuplicates(pizzas[k].val.ingredients, l => l !in gone);
    }
  }

  /** A pizza's links after the cascade are its old links to surviving line items. */
  lemma UnlinkedLinks(pizzas: Table<Pizza>, items: Table<PizzaIngredient>, kept: Table<PizzaIngredient>)
    requires forall r, l :: r in pizzas && l in r.val.ingredients ==> l in IdSet(items)
    ensures var u := Unlink(pizzas, IdSet(items) - IdSet(kept));
      && Ids(u) == Ids(pizzas)
      && forall k, l :: 0 <= k < |u| ==>
           (l in u[k].val.ingredients <==> l in pizzas[k].val.ingredients && l in IdSet(kept))
  {
    var u := Unlink(pizzas, IdSet(items) - IdSet(kept));
    forall k, l | 0 <= k < |u|
      ensures l in u[k].val.ingredients <==> l in pizzas[k].val.ingredients && l in IdSet(kept)
    {
      assert pizzas[k] in pizzas;
    }
  }

  /** After any cascade that unlinks exactly the removed line items, pizzas reference only survivors. */
  lemma UnlinkedResolve(pizzas: Table<Pizza>, items: Table<PizzaIngredient>, kept: Table<PizzaIngredient>)
    requires forall r, l :: r in pizzas && l in r.val.ingredients ==> l in IdSet(items)
    ensures forall r, l :: r in Unlink(pizzas, IdSet(items) - IdSet(kept)) && l in r.val.ingredients ==>
      l in IdSet(kept)
  {
    var gone := IdSet(items) - IdSet(kept);
    UnlinkKeeps(pizzas, gone);
    forall r, l | r in Unlink(pizzas, gone) && l in r.val.ingredients ensures l in IdSet(kept) {
      var p :| p in pizzas && p.id == r.id && l in p.val.ingredients;
    }
  }

  /** An ingredient survives a group's deletion exactly when its group does. */
  lemma CascadeGroupIngredients(db: Db, gid: nat)
    requires ForeignKeysResolve(db)
    ensures var d := CascadeGroup(db, gid);
      forall r :: r in d.ingredients <==> r in db.ingredients && r.val.group in IdSet(d.groups)
  {
    var d := CascadeGroup(db, gid);
    forall r | r in db.ingredients
      ensures r.val.group != gid <==> r.val.group in IdSet(d.groups)
    {
      var g :| g in db.groups && g.id == r.val.group;
      if r.val.group != gid { assert g in d.groups; }
    }
  }

  lemma CascadeGroupConsistent(db: Db, gid: nat)
    requires Consistent(db)
    ensures Consistent(CascadeGroup(db, gid))
  {
    var d := CascadeGroup(db, gid);
    CascadeGroupIngredients(db, gid);
    FilterIncreasing(db.groups, (r: Row<IngredientGroup>) => r.id != gid);
    FilterIncreasing(db.ingredients, (r: Row<Ingredient>) => r.val.group != gid);
    FilterIncreasing(db.pizzaIngredients, (r: Row<PizzaIngredient>) => r.val.ingredient in IdSet(d.ingredients));
    UnlinkKeeps(db.pizzas, IdSet(db.pizzaIngredients) - IdSet(d.pizzaIngredients));
    UnlinkUnique(db.pizzas, IdSet(db.pizzaIngredients) - IdSet(d.pizzaIngredients));
    UnlinkedResolve(db.pizzas, db.pizzaIngredients, d.pizzaIngredients);
  }

  /**
   * Deleting a group leaves a consistent store in which a row survives
   * exactly when the row it references survives: ingredients of other
   * groups, line items of surviving ingredients, and, on every pizza, the
   * links to surviving line items. Orders are untouched.
   */
  lemma CascadeGroupSpec(db: Db, gid: nat)
    requires Consistent(db)
    ensures var d := CascadeGroup(db, gid);
      && Consistent(d)
      && (forall r :: r in d.groups <==> r in db.groups && r.id != gid)
      && (forall r :: r in d.ingredients <==> r in db.ingredients && r.val.group in IdSet(d.groups))
      && (forall r :: r in d.pizzaIngredients <==>
            r in db.pizzaIngredients && r.val.ingredient in IdSet(d.ingredients))
      && Ids(d.pizzas) == Ids(db.pizzas)
      && (forall k, l :: 0 <= k < |d.pizzas| ==>
            (l in d.pizzas[k].val.ingredients <==>
             l in db.pizzas[k].val.ingredients && l in IdSet(d.pizzaIngredients)))
      && d.orders == db.orders
  {
    var d := CascadeGroup(db, gid);
    CascadeGroupConsistent(db, gid);
    CascadeGroupIngredients(db, gid);
    UnlinkedLinks(db.pizzas, db.pizzaIngredients, d.pizzaIngredients);
  }

  /** A line item survives an ingredient's deletion exactly when its ingredient does. */
  lemma CascadeIngredientItems(db: Db, iid: nat)
    requires ForeignKeysResolve(db)
    ensures var d := CascadeIngredient(db, iid);
      forall r :: r in d.pizzaIngredients <==>
        r in db.pizzaIngredients && r.val.ingredient in IdSet(d.ingredients)
  {
    var d := CascadeIngredient(db, iid);
    forall r | r in db.pizzaIngredients
      ensures r.val.ingredient != iid <==> r.val.ingredient in IdSet(d.ingredients)
    {
      var i :| i in db.ingredients && i.id == r.val.ingredient;
      if r.val.ingredient != iid { assert i in d.ingredients; }
    }
  }

  lemma CascadeIngredientConsistent(db: Db, iid: nat)
    requires Consistent(db)
    ensures Consistent(CascadeIngredient(db, iid))
  {
    var d := CascadeIngredient(db, iid);
    CascadeIngredientItems(db, iid);
    FilterIncreasing(db.ingredients, (r: Row<Ingredient>) => r.id != iid);
    FilterIncreasing(db.pizzaIngredients, (r: Row<PizzaIngredient>) => r.val.ingredient != iid);
    UnlinkKeeps(db.pizzas, IdSet(db.pizzaIngredients) - IdSet(d.pizzaIngredients));
    UnlinkUnique(db.pizzas, IdSet(db.pizzaIngredients) - IdSet(d.pizzaIngredients));
    UnlinkedResolve(db.pizzas, db.pizzaIngredients, d.pizzaIngredients);
  }

  /**
   * Deleting an ingredient leaves a consistent store without it, without
   * the line items that used it and without the links to those; groups and
   * orders are untouched.
   */
  lemma CascadeIngredientSpec(db: Db, iid: nat)
    requires Consistent(db)
    ensures var d := CascadeIngredient(db, iid);
      && Consistent(d)
      && d.groups == db.groups
      && (forall r :: r in d.ingredients <==> r in db.ingredients && r.id != iid)
      && (forall r :: r in d.pizzaIngredients <==>
            r in db.pizzaIngredients && r.val.ingredient in IdSet(d.ingredients))
      && Ids(d.pizzas) == Ids(db.pizzas)
      && (forall k, l :: 0 <= k < |d.pizzas| ==>
            (l in d.pizzas[k].val.ingredients <==>
             l in db.pizzas[k].val.ingredients && l in IdSet(d.pizzaIngredients)))
      && d.orders == db.orders
  {
    var d := CascadeIngredient(db, iid);
    CascadeIngredientConsistent(db, iid);
    CascadeIngredientItems(db, iid);
    UnlinkedLinks(db.pizzas, db.pizzaIngredients, d.pizzaIngredients);
  }

  /**
   * Deleting a pizza leaves a consistent store without it and without the
   * orders that referenced it; nothing else is removed, not even the
   * pizza's line items.
   */
  lemma CascadePizzaSpec(db: Db, pid: nat)
    requires Consistent(db)
    ensures var d := CascadePizza(db, pid);
      && Consistent(d)
      && d.groups == db.groups && d.ingredients == db.ingredients
      && d.pizzaIngredients == db.pizzaIngredients
      && (forall r :: r in d.pizzas <==> r in db.pizzas && r.id != pid)
      && (forall r :: r in d.orders <==> r in db.orders && r.val.pizza in IdSet(d.pizzas))
  {
    var d := CascadePizza(db, pid);
    forall r | r in db.orders
      ensures r.val.pizza != pid <==> r.val.pizza in IdSet(d.pizzas)
    {
      var p :| p in db.pizzas && p.id == r.val.pizza;
      if r.val.pizza != pid { assert p in d.pizzas; }
    }
    FilterIncreasing(db.pizzas, (r: Row<Pizza>) => r.id != pid);
    FilterIncreasing(db.orders, (r: Row<Order>) => r.val.pizza != pid);
  }

  /** Removing rows and links keeps every remaining key below the bound. */
  lemma CascadeKeysBelow(db: Db, id: nat, next: nat)
    requires KeysBelow(db, next)
    ensures KeysBelow(CascadeGroup(db, id), next)
    ensures KeysBelow(CascadeIngredient(db, id), next)
    ensures KeysBelow(CascadePizza(db, id), next)
  {
    UnlinkKeeps(db.pizzas, IdSet(db.pizzaIngredients) - IdSet(CascadeGroup(db, id).pizzaIngredients));
    UnlinkKeeps(db.pizzas, IdSet(db.pizzaIngredients) - IdSet(CascadeIngredient(db, id).pizzaIngredients));
    forall r | r in CascadeGroup(db, id).pizzas ensures r.id < next {
      assert r.id in IdSet(CascadeGroup(db, id).pizzas);
    }
    forall r | r in CascadeIngredient(db, id).pizzas ensures r.id < next {
      assert r.id in IdSet(CascadeIngredient(db, id).pizzas);
    }
  }

  /** Appending a row whose key is `next` to a table keyed below `next` keeps keys unique and ordered. */
  lemma AppendIncreasing<T>(t: Table<T>, r: Row<T>)
    requires IdsIncreasing(t) && IdsBelow(t, r.id)
    ensures IdsIncreasing(t + [r]) && IdsBelow(t + [r], r.id + 1)
  {
    forall i | 0 <= i < |t| ensures t[i].id < r.id {
      assert t[i] in t;
    }
  }

  /** Keys handed out consecutively from `first`: `first`, `first + 1`, ... */
  ghost predicate Consecutive<T>(t: Table<T>, first: nat)
  {
    forall j :: 0 <= j < |t| ==> t[j].id == first + j
  }

  /** Appending consecutively keyed rows, all keyed from `first` on, to a table keyed below `first`. */
  lemma AppendConsecutive<T>(t: Table<T>, rows: Table<T>, first: nat)
    requires IdsIncreasing(t) && IdsBelow(t, first) && Consecutive(rows, first)
    ensures IdsIncreasing(t + rows) && IdsBelow(t + rows, first + |rows|)
  {
    var u := t + rows;
    forall i | 0 <= i < |t| ensures t[i].id < first {
      assert t[i] in t;
    }
    forall i, j | 0 <= i < j < |u| ensures u[i].id < u[j].id {
      if j >= |t| { assert u[j] == rows[j - |t|]; }
      if i >= |t| { assert u[i] == rows[i - |t|]; }
    }
    forall r | r in u ensures r.id < first + |rows| {
      var k :| 0 <= k < |u| && u[k] == r;
      if k >= |t| { assert u[k] == rows[k - |t|]; } else { assert t[k] in t; }
    }
  }

  /**
   * What the create view writes: a pizza keyed `next` linked to line
   * items keyed consecutively after it, each naming a stored ingredient,
   * and, when `withOrder`, a fresh order for that pizza keyed after them.
   */
  function AddPizza(db: Db, next: nat, dough: string, lines: Table<PizzaIngredient>,
                    withOrder: bool, now: Time): Db
  {
    Db(db.groups, db.ingredients, db.pizzaIngredients + lines,
       db.pizzas + [Row(next, Pizza(dough, Ids(lines)))],
       if withOrder then db.orders + [Row(next + 1 + |lines|, NewOrder(next, now))] else db.orders)
  }

  lemma AddPizzaKeys(db: Db, next: nat, dough: string, lines: Table<PizzaIngredient>,
                     withOrder: bool, now: Time)
    requires KeysUnique(db) && KeysBelow(db, next) && Consecutive(lines, next + 1)
    ensures var d := AddPizza(db, next, dough, lines, withOrder, now);
      KeysUnique(d) && KeysBelow(d, next + 1 + |lines| + (if withOrder then 1 else 0))
  {
    var d := AddPizza(db, next, dough, lines, withOrder, now);
    var bound := next + 1 + |lines|;
    AppendConsecutive(db.pizzaIngredients, lines, next + 1);
    AppendIncreasing(db.pizzas, Row(next, Pizza(dough, Ids(lines))));
    if withOrder {
      AppendIncreasing(db.orders, Row(bound, NewOrder(next, now)));
    }
  }

  lemma AddPizzaReferences(db: Db, next: nat, dough: string, lines: Table<PizzaIngredient>,
                           withOrder: bool, now: Time)
    requires ForeignKeysResolve(db)
    requires forall j :: 0 <= j < |lines| ==> lines[j].val.ingredient in IdSet(db.ingredients)
    ensures ForeignKeysResolve(AddPizza(db, next, dough, lines, withOrder, now))
  {
    var d := AddPizza(db, next, dough, lines, withOrder, now);
    forall r | r in d.pizzaIngredients ensures r.val.ingredient in IdSet(d.ingredients) {
      if r !in db.pizzaIngredients {
        var j :| 0 <= j < |lines| && lines[j] == r;
      }
    }
    assert forall r :: r in db.pizzaIngredients ==> r in d.pizzaIngredients;
    forall r, l | r in d.pizzas && l in r.val.ingredients ensures l in IdSet(d.pizzaIngredients) {
      if r in db.pizzas {
        assert l in IdSet(db.pizzaIngredients);
      } else {
        var j :| 0 <= j < |lines| && Ids(lines)[j] == l;
        assert lines[j] in d.pizzaIngredients;
      }
    }
    assert forall r :: r in db.pizzas ==> r in d.pizzas;
    assert Row(next, Pizza(dough, Ids(lines))) in d.pizzas;
  }

  /** The rows the create view writes keep the store consistent and keyed below the next key. */
  lemma AddPizzaConsistent(db: Db, next: nat, dough: string, lines: Table<PizzaIngredient>,
                           withOrder: bool, now: Time)
    requires Consistent(db) && KeysBelow(db, next)
    requires Consecutive(lines, next + 1)
    requires forall j :: 0 <= j < |lines| ==> lines[j].val.ingredient in IdSet(db.ingredients)
    ensures var d := AddPizza(db, next, dough, lines, withOrder, now);
      Consistent(d) && KeysBelow(d, next + 1 + |lines| + (if withOrder then 1 else 0))
  {
    AddPizzaKeys(db, next, dough, lines, withOrder, now);
    AddPizzaReferences(db, next, dough, lines, withOrder, now);
    var d := AddPizza(db, next, dough, lines, withOrder, now);
    IncreasingNoDuplicates(Ids(lines));
    assert forall r :: r in d.pizzas ==> r in db.pizzas || r == Row(next, Pizza(dough, Ids(lines)));
  }

  /** The price of the line items `lines`, their costs looked up in `ings`: the sum the order price must come to. */
  function LinesPrice(ings: Table<Ingredient>, lines: Table<PizzaIngredient>): real
    requires forall j :: 0 <= j < |lines| ==> lines[j].val.ingredient in IdSet(ings)
  {
    if lines == [] then 0.0
    else LinePrice(Get(ings, lines[0].val.ingredient).value.cost, lines[0].val.amount) + LinesPrice(ings, lines[1..])
  }

  /** Line items stored in `d`, naming stored ingredients, resolve through their keys. */
  lemma LinesResolve(d: Db, lines: Table<PizzaIngredient>)
    requires IdsIncreasing(d.pizzaIngredients)
    requires forall j :: 0 <= j < |lines| ==> lines[j] in d.pizzaIngredients
    requires forall j :: 0 <= j < |lines| ==> lines[j].val.ingredient in IdSet(d.ingredients)
    ensures Resolves(d, Ids(lines))
    ensures forall j :: 0 <= j < |lines| ==> Get(d.pizzaIngredients, lines[j].id) == Some(lines[j].val)
  {
    forall j | 0 <= j < |lines| ensures Get(d.pizzaIngredients, lines[j].id) == Some(lines[j].val) {
      assert lines[j] in d.pizzaIngredients;
      var k :| 0 <= k < |d.pizzaIngredients| && d.pizzaIngredients[k] == lines[j];
      GetUnique(d.pizzaIngredients, k);
    }
  }

  /** Line items stored in `d` are priced, through their keys, as their column values say. */
  lemma {:induction false} ItemsPriceOfLines(d: Db, lines: Table<PizzaIngredient>)
    requires IdsIncreasing(d.pizzaIngredients)
    requires forall j :: 0 <= j < |lines| ==> lines[j] in d.pizzaIngredients
    requires forall j :: 0 <= j < |lines| ==> lines[j].val.ingredient in IdSet(d.ingredients)
    ensures Resolves(d, Ids(lines)) && ItemsPrice(d, Ids(lines)) == LinesPrice(d.ingredients, lines)
  {
    LinesResolve(d, lines);
    if lines != [] {
      var rest := lines[1..];
      assert forall j :: 0 <= j < |rest| ==> rest[j] == lines[j + 1];
      assert Ids(lines) == [lines[0].id] + Ids(rest);
      ItemsPriceOfLines(d, rest);
    }
  }

  /** `Order.price` is the sum of the prices of the pizza's line items, whatever their keys. */
  lemma OrderPriceOfLines(d: Db, o: Order, lines: Table<PizzaIngredient>)
    requires Consistent(d) && o.pizza in IdSet(d.pizzas)
    requires Get(d.pizzas, o.pizza).value.ingredients == Ids(lines)
    requires forall j :: 0 <= j < |lines| ==> lines[j] in d.pizzaIngredients
    ensures forall j :: 0 <= j < |lines| ==> lines[j].val.ingredient in IdSet(d.ingredients)
    ensures OrderPrice(d, o) == LinesPrice(d.ingredients, lines)
  {
    ItemsPriceOfLines(d, lines);
  }

  /**
   * The order the create view makes costs exactly the sum of its line
   * items' prices (`AddPizzaConsistent` gives the requirement on the new store).
   */
  lemma AddedOrderPrice(db: Db, next: nat, dough: string, lines: Table<PizzaIngredient>, now: Time)
    requires Consistent(AddPizza(db, next, dough, lines, true, now))
    ensures var d := AddPizza(db, next, dough, lines, true, now);
      && next in IdSet(d.pizzas)
      && OrderPrice(d, NewOrder(next, now)) == LinesPrice(db.ingredients, lines)
  {
    var d := AddPizza(db, next, dough, lines, true, now);
    assert d.pizzas[|db.pizzas|] == Row(next, Pizza(dough, Ids(lines)));
    GetUnique(d.pizzas, |db.pizzas|);
    forall j | 0 <= j < |lines| ensures lines[j] in d.pizzaIngredients {
      assert d.pizzaIngredients[|db.pizzaIngredients| + j] == lines[j];
    }
    OrderPriceOfLines(d, NewOrder(next, now), lines);
  }

  /** Saving an order row that keeps its pizza and `Lifecycle` keeps the store consistent. */
  lemma PutOrderConsistent(db: Db, id: nat, o: Order, next: nat)
    requires Consistent(db) && KeysBelow(db, next)
    requires o.pizza in IdSet(db.pizzas) && Lifecycle(o)
    ensures var d := db.(orders := Put(db.orders, id, o));
      Consistent(d) && KeysBelow(d, next)
  {
    var u := Put(db.orders, id, o);
    forall r | r in u ensures r.val.pizza in IdSet(db.pizzas) && Lifecycle(r.val) && r.id < next {
      var k :| 0 <= k < |u| && u[k] == r;
      assert db.orders[k] in db.orders;
    }
    assert IdsIncreasing(u) by {
      forall i, j | 0 <= i < j < |u| ensures u[i].id < u[j].id {
        assert Ids(u)[i] == Ids(db.orders)[i] && Ids(u)[j] == Ids(db.orders)[j];
      }
    }
  }
}

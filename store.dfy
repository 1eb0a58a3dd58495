/**
 * The running store: five tables the views and the models' `delete()`
 * update in place, and the primary-key counter new rows draw from.
 */
module Engine {
  import opened Wrappers
  import opened Tables
  import opened Models
  import opened Utils
  import opened Views

  /** The create view's answer: the JSON redirect to the new order's page, or 400. */
  datatype CreateResponse = Created(order: nat) | BadRequest

  /** The confirm view's answer: a redirect to the order's page, the "Invalid token!" page, or 404. */
  datatype ConfirmResponse = Redirected(order: nat) | InvalidToken | NotFound

  class Store {
    var groups: Table<IngredientGroup>
    var ingredients: Table<Ingredient>
    var pizzaIngredients: Table<PizzaIngredient>
    var pizzas: Table<Pizza>
    var orders: Table<Order>
    /** The next primary key to hand out (auto-increment; uuid4 for orders). */
    var nextId: nat

    function State(): Db
      reads this
    {
      Db(groups, ingredients, pizzaIngredients, pizzas, orders)
    }

    ghost predicate Valid()
      reads this
    {
      Consistent(State()) && KeysBelow(State(), nextId)
    }

    /** `Valid()` holds of a store whose rows are a consistent `d` keyed below its counter `n`. */
    lemma ValidAt(d: Db, n: nat)
      requires State() == d && nextId == n && Consistent(d) && KeysBelow(d, n)
      ensures Valid()
    {
    }

    constructor ()
      ensures Valid() && State() == Db([], [], [], [], [])
    {
      groups, ingredients, pizzaIngredients, pizzas, orders := [], [], [], [], [];
      nextId := 0;
    }

    /** Writes back the rows a cascade leaves: a consistent store keyed below the counter. */
    method Load(d: Db)
      requires Consistent(d) && KeysBelow(d, nextId)
      modifies this
      ensures Valid() && State() == d && nextId == old(nextId)
    {
      groups, ingredients, pizzaIngredients, pizzas, orders :=
        d.groups, d.ingredients, d.pizzaIngredients, d.pizzas, d.orders;
    }

    /** The group create view: stores a group of that name. */
    method AddGroup(name: string) returns (id: nat)
      requires Valid()
      modifies this
      ensures Valid()
      ensures State() == old(State()).(groups := old(groups) + [Row(id, IngredientGroup(name))])
    {
      id := nextId;
      AppendIncreasing(groups, Row(id, IngredientGroup(name)));
      groups := groups + [Row(id, IngredientGroup(name))];
      nextId := nextId + 1;
      assert forall r :: r in old(groups) ==> r in groups;
    }

    /** The ingredient create view: refuses an unknown group and a negative cost, otherwise stores the ingredient. */
    method AddIngredient(name: string, group: nat, cost: real) returns (id: Option<nat>)
      requires Valid()
      modifies this
      ensures Valid()
      ensures id.None? <==> group !in IdSet(old(groups)) || cost < 0.0
      ensures id.None? ==> State() == old(State())
      ensures id.Some? ==>
        State() == old(State()).(ingredients := old(ingredients) + [Row(id.value, Ingredient(name, group, cost))])
    {
      if group !in IdSet(groups) || cost < 0.0 {
        return None;
      }
      var k := nextId;
      AppendIncreasing(ingredients, Row(k, Ingredient(name, group, cost)));
      ingredients := ingredients + [Row(k, Ingredient(name, group, cost))];
      nextId := nextId + 1;
      assert forall r :: r in old(ingredients) ==> r in ingredients;
      assert forall r :: r in old(pizzaIngredients) ==> r.val.ingredient in IdSet(ingredients);
      id := Some(k);
    }

    /** `IngredientGroup.delete()` with its cascade; `found` is false for a key that is not stored. */
    method DeleteGroup(gid: nat) returns (found: bool)
      requires Valid()
      modifies this
      ensures Valid() && nextId == old(nextId)
      ensures found == (gid in IdSet(old(groups)))
      ensures State() == if found then CascadeGroup(old(State()), gid) else old(State())
    {
      found := gid in IdSet(groups);
      if found {
        var d := CascadeGroup(State(), gid);
        CascadeGroupConsistent(State(), gid);
        CascadeKeysBelow(State(), gid, nextId);
        Load(d);
      }
    }

    /** `Ingredient.delete()` with its cascade; `found` is false for a key that is not stored. */
    method DeleteIngredient(iid: nat) returns (found: bool)
      requires Valid()
      modifies this
      ensures Valid() && nextId == old(nextId)
      ensures found == (iid in IdSet(old(ingredients)))
      ensures State() == if found then CascadeIngredient(old(State()), iid) else old(State())
    {
      found := iid in IdSet(ingredients);
      if found {
        var d := CascadeIngredient(State(), iid);
        CascadeIngredientConsistent(State(), iid);
        CascadeKeysBelow(State(), iid, nextId);
        Load(d);
      }
    }

    /** `Pizza.delete()` with its cascade to the pizza's orders; `found` is false for a key that is not stored. */
    method DeletePizza(pid: nat) returns (found: bool)
      requires Valid()
      modifies this
      ensures Valid() && nextId == old(nextId)
      ensures found == (pid in IdSet(old(pizzas)))
      ensures State() == if found then CascadePizza(old(State()), pid) else old(State())
    {
      found := pid in IdSet(pizzas);
      if found {
        var d := CascadePizza(State(), pid);
        CascadePizzaSpec(State(), pid);
        CascadeKeysBelow(State(), pid, nextId);
        Load(d);
      }
    }

    /**
     * `AjaxCreatePizzaView.post`: creates the pizza, walks the catalogue
     * creating and linking one line item per positive amount, then creates
     * the order. When `int()` raises the walk stops with a 400, and the
     * pizza and the line items created so far stay stored.
     */
    method CreatePizza(posted: Form, now: Time) returns (r: CreateResponse)
      requires Valid()
      modifies this
      ensures Valid()
      ensures var c := Compose(old(State()).ingredients, posted, old(nextId) + 1);
        && State() == AddPizza(old(State()), old(nextId), DoughOf(posted), c.lines, c.complete, now)
        && r == (if c.complete then Created(old(nextId) + 1 + |c.lines|) else BadRequest)
    {
      ghost var db := State();
      ghost var next := nextId;
      ghost var c := Compose(db.ingredients, posted, next + 1);
      r := WriteComposition(db, c, posted, now);
      CreationConsistent(db, next, posted, c.complete, now);
      ValidAt(AddPizza(db, next, DoughOf(posted), c.lines, c.complete, now), nextId);
    }

    /** The rows `AjaxCreatePizzaView.post` writes, in the order it writes them. */
    method WriteComposition(ghost db: Db, ghost c: Composition, posted: Form, now: Time) returns (r: CreateResponse)
      requires db == State() && c == Compose(db.ingredients, posted, nextId + 1)
      modifies this
      ensures State() == AddPizza(db, old(nextId), DoughOf(posted), c.lines, c.complete, now)
      ensures nextId == old(nextId) + 1 + |c.lines| + (if c.complete then 1 else 0)
      ensures r == (if c.complete then Created(old(nextId) + 1 + |c.lines|) else BadRequest)
    {
      var pid := nextId;
      var dough := DoughOf(posted);
      pizzas := pizzas + [Row(pid, Pizza(dough, []))];
      nextId := nextId + 1;
      var complete := SaveLines(db, pid, dough, posted);
      if !complete {
        assert State() == AddPizza(db, pid, dough, c.lines, false, now);
        return BadRequest;
      }
      var oid := nextId;
      orders := orders + [Row(oid, NewOrder(pid, now))];
      nextId := nextId + 1;
      assert State() == AddPizza(db, pid, dough, c.lines, true, now);
      r := Created(oid);
    }

    /**
     * The loop of `AjaxCreatePizzaView.post` over `Ingredient.objects.all()`:
     * saves and links one line item per positive amount, and stops with
     * `false` at the first field `int()` rejects.
     */
    method SaveLines(ghost db: Db, pid: nat, dough: string, posted: Form) returns (complete: bool)
      requires db.ingredients == ingredients
      requires State() == AddPizza(db, pid, dough, [], false, 0) && nextId == pid + 1
      modifies this
      ensures var c := Compose(ingredients, posted, pid + 1);
        && complete == c.complete
        && State() == AddPizza(db, pid, dough, c.lines, false, 0)
        && nextId == pid + 1 + |c.lines|
    {
      var ings := ingredients;
      ghost var comp := Composition([], true);
      var k := 0;
      assert ings[..0] == [];
      while k < |ings|
        invariant 0 <= k <= |ings|
        invariant comp == Compose(ings[..k], posted, pid + 1) && comp.complete
        invariant State() == AddPizza(db, pid, dough, comp.lines, false, 0)
        invariant nextId == pid + 1 + |comp.lines|
        decreases |ings| - k
      {
        var i := ings[k];
        var amount := Classify(posted, i.val.name);
        if amount.Malformed? {
          ComposeStopsHere(ings, posted, pid + 1, k);
          return false;
        }
        ComposeAdvances(ings, posted, pid + 1, k, comp);
        ghost var next := Compose(ings[..k + 1], posted, pid + 1);
        if amount.Take? {
          var item := Row(nextId, PizzaIngredient(i.id, amount.n));
          assert next.lines == comp.lines + [item];
          LinkLine(db, pid, dough, comp.lines, item);
        }
        comp := next;
        k := k + 1;
      }
      assert ings[..k] == ings;
      return true;
    }

    /** One iteration's writes: the line item is saved and linked to the pizza saved last. */
    method LinkLine(ghost db: Db, pid: nat, dough: string, ghost lines: Table<PizzaIngredient>,
                    item: Row<PizzaIngredient>)
      requires State() == AddPizza(db, pid, dough, lines, false, 0)
      modifies this
      ensures State() == AddPizza(db, pid, dough, lines + [item], false, 0)
      ensures nextId == old(nextId) + 1
    {
      var last := pizzas[|pizzas| - 1];
      pizzaIngredients := pizzaIngredients + [item];
      pizzas := pizzas[..|pizzas| - 1] + [Row(last.id, last.val.(ingredients := last.val.ingredients + [item.id]))];
      nextId := nextId + 1;
      assert Ids(lines + [item]) == Ids(lines) + [item.id];
      assert old(pizzas)[..|pizzas| - 1] == db.pizzas;
    }

    /** `PizzaFormView.get_context_data`: the `ingredients` dictionary, filled group by group. */
    method Catalogue() returns (m: Views.CatalogueMap)
      ensures m == CatalogueOf(groups, ingredients)
    {
      m := map[];
      for k := 0 to |groups|
        invariant m == CatalogueOf(groups[..k], ingredients)
      {
        var g := groups[k];
        assert groups[..k + 1][..k] == groups[..k];
        m := m[g.val.name := GroupEntries(ingredients, g.id)];
      }
      assert groups[..|groups|] == groups;
    }

    /**
     * `OrderView.form_valid`: saves the contact fields and marks the order
     * submitted; answers the code e-mailed in the confirmation link, or
     * `None` where `get_object_or_404` answers 404.
     */
    method SubmitContact(env: CodeEnv, id: nat, email: string, phone: string, name: string)
      returns (code: Option<Digest>)
      requires Valid()
      modifies this
      ensures Valid() && nextId == old(nextId)
      ensures id !in IdSet(old(orders)) ==> code == None && State() == old(State())
      ensures id in IdSet(old(orders)) ==>
        var s := Submit(Get(old(orders), id).value, email, phone, name);
        && State() == old(State()).(orders := Put(old(orders), id, s))
        && code == Some(GenerateConfirmCode(env, s))
    {
      var found := Get(orders, id);
      if found.None? {
        return None;
      }
      var s := Submit(found.value, email, phone, name);
      assert Row(id, found.value) in orders;
      ghost var db := State();
      PutOrderConsistent(db, id, s, nextId);
      orders := Put(orders, id, s);
      ValidAt(db.(orders := Put(db.orders, id, s)), nextId);
      code := Some(GenerateConfirmCode(env, s));
    }

    /**
     * `OrderConfirmView.get`: confirms a not yet confirmed order whose
     * recomputed code equals `code`, stamping `now`; every other request
     * answers "Invalid token!" and leaves the store as it was.
     */
    method Confirm(env: CodeEnv, id: nat, code: string, now: Time) returns (r: ConfirmResponse)
      requires Valid()
      modifies this
      ensures Valid() && nextId == old(nextId)
      ensures id !in IdSet(old(orders)) ==> r == NotFound && State() == old(State())
      ensures id in IdSet(old(orders)) ==>
        var o := Get(old(orders), id).value;
        if ConfirmAccepts(env, o, code) then
          r == Redirected(id) && State() == old(State()).(orders := Put(old(orders), id, Confirmed(o, now)))
        else
          r == InvalidToken && State() == old(State())
    {
      var found := Get(orders, id);
      if found.None? {
        return NotFound;
      }
      var o := found.value;
      if !o.isConfirm {
        if GenerateConfirmCode(env, o) == code {
          assert Row(id, o) in orders;
          ghost var db := State();
          PutOrderConsistent(db, id, Confirmed(o, now), nextId);
          orders := Put(orders, id, Confirmed(o, now));
          ValidAt(db.(orders := Put(db.orders, id, Confirmed(o, now))), nextId);
          return Redirected(id);
        }
      }
      r := InvalidToken;
    }
  }

  /** Storing a walk's pizza, line items and (when complete) order keeps the store consistent. */
  lemma CreationConsistent(db: Db, next: nat, posted: Form, withOrder: bool, now: Time)
    requires Consistent(db) && KeysBelow(db, next)
    ensures var c := Compose(db.ingredients, posted, next + 1);
      var d := AddPizza(db, next, DoughOf(posted), c.lines, withOrder, now);
      Consistent(d) && KeysBelow(d, next + 1 + |c.lines| + (if withOrder then 1 else 0))
  {
    var first: nat := next + 1;
    var c := Compose(db.ingredients, posted, first);
    LinesFromCatalogue(db.ingredients, posted, first);
    AddPizzaConsistent(db, next, DoughOf(posted), c.lines, withOrder, now);
  }

  /** Every line item of a walk names a catalogue ingredient. */
  lemma LinesFromCatalogue(ings: Table<Ingredient>, posted: Form, firstId: nat)
    ensures forall j :: 0 <= j < |Compose(ings, posted, firstId).lines| ==>
      Compose(ings, posted, firstId).lines[j].val.ingredient in IdSet(ings)
  {
    ComposeSound(ings, posted, firstId);
    var c := Compose(ings, posted, firstId);
    forall j | 0 <= j < |c.lines| ensures c.lines[j].val.ingredient in IdSet(ings) {
      assert FromCatalogue(ings, posted, c.lines[j].val);
    }
  }
}

/**
 * The decisions the views make, as functions of the store's rows and of
 * the request: which line items a posted pizza form yields, the catalogue
 * served to the pizza form, the order list, and when a confirmation link
 * is accepted. `Store` runs them against the tables.
 */
module Views {
  import opened Wrappers
  import opened Tables
  import opened Models
  import opened PyInt
  import opened Utils

  /** A posted form: each field name with its (last) value. */
  type Form = map<string, string>

  /** `request.POST.get('dough', 0)`, stored in a text column: the default becomes "0". */
  function DoughOf(posted: Form): string
  {
    if "dough" in posted then posted["dough"] else "0"
  }

  // ------------------------------------------------------ pizza composition

  /** What the create view does with one ingredient's field. */
  datatype Amount = Skip | Take(n: nat) | Malformed

  /** `amount = POST.get(name, 0)`, then `if amount and int(amount) > 0`, where `int()` may raise. */
  function Classify(posted: Form, name: string): Amount
  {
    if name !in posted || posted[name] == "" then Skip
    else match ParseInt(posted[name])
      case None => Malformed
      case Some(n) => if n > 0 then Take(n) else Skip
  }

  /** A field holding the decimal text of `n` yields a line item of amount `n` when `n > 0`, and none for "0". */
  lemma ClassifyDecimal(posted: Form, name: string, n: nat)
    requires name in posted && posted[name] == Decimal(n)
    ensures Classify(posted, name) == if n > 0 then Take(n) else Skip
  {
    ParseDecimal(n);
  }

  /** A negative amount yields no line item and no error. */
  lemma ClassifyNegative(posted: Form, name: string, n: nat)
    requires name in posted && posted[name] == "-" + Decimal(n)
    ensures Classify(posted, name) == Skip
  {
    ParseNegated(n);
  }

  /** An absent or empty field yields no line item. */
  lemma ClassifyMissing(posted: Form, name: string)
    requires name !in posted || posted[name] == ""
    ensures Classify(posted, name) == Skip
  {
  }

  /** A field with a character `int()` cannot read (a letter, a dot) aborts the request. */
  lemma ClassifyGarbage(posted: Form, name: string, k: nat)
    requires name in posted && k < |posted[name]|
    requires var c := posted[name][k];
      !IsDigit(c) && !IsSpace(c) && c != '+' && c != '-' && c != '_'
    ensures Classify(posted, name) == Malformed
  {
    ParseRejects(posted[name], k);
  }

  /**
   * The line items the create view has stored once it has walked `ings`
   * (keys handed out from `firstId` on), and whether it got to the end
   * without `int()` raising.
   */
  datatype Composition = Composition(lines: Table<PizzaIngredient>, complete: bool)

  function Compose(ings: Table<Ingredient>, posted: Form, firstId: nat): (c: Composition)
    ensures |c.lines| <= |ings|
    ensures forall j :: 0 <= j < |c.lines| ==> c.lines[j].id == firstId + j
    decreases |ings|
  {
    if ings == [] then Composition([], true)
    else
      var last := ings[|ings| - 1];
      var prev := Compose(ings[..|ings| - 1], posted, firstId);
      if !prev.complete then prev
      else match Classify(posted, last.val.name)
        case Skip => prev
        case Malformed => Composition(prev.lines, false)
        case Take(n) =>
          Composition(prev.lines + [Row(firstId + |prev.lines|, PizzaIngredient(last.id, n))], true)
  }

  /** The walk completes exactly when no ingredient's field makes `int()` raise. */
  lemma {:induction false} ComposeCompleteIff(ings: Table<Ingredient>, posted: Form, firstId: nat)
    ensures Compose(ings, posted, firstId).complete <==>
      forall i :: 0 <= i < |ings| ==> Classify(posted, ings[i].val.name) != Malformed
  {
    if ings != [] {
      var front := ings[..|ings| - 1];
      ComposeCompleteIff(front, posted, firstId);
      assert forall i :: 0 <= i < |front| ==> front[i] == ings[i];
    }
  }

  /** `item` is the line item the catalogue's ingredient number `i`, for some `i`, asks for. */
  ghost predicate FromCatalogue(ings: Table<Ingredient>, posted: Form, item: PizzaIngredient)
  {
    exists i :: 0 <= i < |ings| && ings[i].id == item.ingredient &&
      Classify(posted, ings[i].val.name) == Take(item.amount)
  }

  /** Every stored line item comes from a catalogue ingredient whose field holds a positive amount, with that amount. */
  lemma {:induction false} ComposeSound(ings: Table<Ingredient>, posted: Form, firstId: nat)
    ensures forall j :: 0 <= j < |Compose(ings, posted, firstId).lines| ==>
      FromCatalogue(ings, posted, Compose(ings, posted, firstId).lines[j].val)
  {
    if ings != [] {
      var front := ings[..|ings| - 1];
      ComposeSound(front, posted, firstId);
      var c := Compose(ings, posted, firstId);
      var prev := Compose(front, posted, firstId);
      forall j | 0 <= j < |c.lines| ensures FromCatalogue(ings, posted, c.lines[j].val) {
        if j < |prev.lines| {
          assert c.lines[j] == prev.lines[j];
          assert FromCatalogue(front, posted, prev.lines[j].val);
          var i :| 0 <= i < |front| && front[i].id == prev.lines[j].val.ingredient &&
            Classify(posted, front[i].val.name) == Take(prev.lines[j].val.amount);
          assert front[i] == ings[i];
        } else {
          assert ings[|ings| - 1].id == c.lines[j].val.ingredient;
        }
      }
    }
  }

  /** Some line item among `lines` has the column values `item`. */
  ghost predicate HasLine(lines: Table<PizzaIngredient>, item: PizzaIngredient)
  {
    exists j :: 0 <= j < |lines| && lines[j].val == item
  }

  /** A completed walk stores a line item for every ingredient whose field holds a positive amount. */
  lemma {:induction false} ComposeCovers(ings: Table<Ingredient>, posted: Form, firstId: nat)
    ensures Compose(ings, posted, firstId).complete ==>
      forall i :: 0 <= i < |ings| && Classify(posted, ings[i].val.name).Take? ==>
        HasLine(Compose(ings, posted, firstId).lines,
                PizzaIngredient(ings[i].id, Classify(posted, ings[i].val.name).n))
  {
    if ings != [] {
      var front := ings[..|ings| - 1];
      ComposeCovers(front, posted, firstId);
      var c := Compose(ings, posted, firstId);
      var prev := Compose(front, posted, firstId);
      if c.complete {
        assert prev.complete;
        forall i | 0 <= i < |ings| && Classify(posted, ings[i].val.name).Take?
          ensures HasLine(c.lines, PizzaIngredient(ings[i].id, Classify(posted, ings[i].val.name).n))
        {
          if i < |front| {
            assert front[i] == ings[i];
            assert HasLine(prev.lines, PizzaIngredient(front[i].id, Classify(posted, front[i].val.name).n));
            var j :| 0 <= j < |prev.lines| &&
              prev.lines[j].val == PizzaIngredient(front[i].id, Classify(posted, front[i].val.name).n);
            assert c.lines[j] == prev.lines[j];
          } else {
            assert c.lines[|prev.lines|].val == PizzaIngredient(ings[i].id, Classify(posted, ings[i].val.name).n);
          }
        }
      }
    }
  }

  /** Line items only name ingredients of the catalogue, so keys below a bound stay below it. */
  lemma ComposeIngredientsBelow(ings: Table<Ingredient>, posted: Form, firstId: nat, bound: nat)
    requires forall i :: 0 <= i < |ings| ==> ings[i].id < bound
    ensures forall j :: 0 <= j < |Compose(ings, posted, firstId).lines| ==>
      Compose(ings, posted, firstId).lines[j].val.ingredient < bound
  {
    ComposeSound(ings, posted, firstId);
    var c := Compose(ings, posted, firstId);
    forall j | 0 <= j < |c.lines| ensures c.lines[j].val.ingredient < bound {
      assert FromCatalogue(ings, posted, c.lines[j].val);
    }
  }

  /**
   * Over a catalogue in key order, the stored line items follow the
   * catalogue order with strictly increasing ingredient keys, so no
   * ingredient gets two line items.
   */
  lemma {:induction false} ComposeOrdered(ings: Table<Ingredient>, posted: Form, firstId: nat)
    requires IdsIncreasing(ings)
    ensures forall j1, j2 :: 0 <= j1 < j2 < |Compose(ings, posted, firstId).lines| ==>
      Compose(ings, posted, firstId).lines[j1].val.ingredient <
      Compose(ings, posted, firstId).lines[j2].val.ingredient
  {
    if ings != [] {
      var n := |ings| - 1;
      var front := ings[..n];
      assert forall i :: 0 <= i < |front| ==> front[i] == ings[i];
      ComposeOrdered(front, posted, firstId);
      ComposeIngredientsBelow(front, posted, firstId, ings[n].id);
      var c := Compose(ings, posted, firstId);
      var prev := Compose(front, posted, firstId);
      assert |c.lines| == |prev.lines| || c.lines == prev.lines + [c.lines[|prev.lines|]];
      assert |c.lines| > |prev.lines| ==> c.lines[|prev.lines|].val.ingredient == ings[n].id;
      forall j | 0 <= j < |prev.lines| ensures c.lines[j] == prev.lines[j] { }
    }
  }

  /** Field `k` is the first `int()` rejects, and `c` holds the line items of the ingredients before it. */
  ghost predicate FirstMalformedAt(ings: Table<Ingredient>, posted: Form, firstId: nat, c: Composition, k: int)
  {
    && 0 <= k < |ings| && Classify(posted, ings[k].val.name) == Malformed
    && (forall i :: 0 <= i < k ==> Classify(posted, ings[i].val.name) != Malformed)
    && c.lines == Compose(ings[..k], posted, firstId).lines
  }

  /**
   * An aborted walk has stored exactly the line items of the ingredients
   * before the first field `int()` cannot read: they stay in the store.
   */
  lemma {:induction false} ComposeStopsAtFirstMalformed(ings: Table<Ingredient>, posted: Form, firstId: nat)
    ensures var c := Compose(ings, posted, firstId);
      !c.complete ==> exists k :: FirstMalformedAt(ings, posted, firstId, c, k)
  {
    if ings != [] {
      var n := |ings| - 1;
      var front := ings[..n];
      var c := Compose(ings, posted, firstId);
      var prev := Compose(front, posted, firstId);
      if !prev.complete {
        ComposeStopsAtFirstMalformed(front, posted, firstId);
        var k :| FirstMalformedAt(front, posted, firstId, prev, k);
        assert front[..k] == ings[..k];
        assert forall i :: 0 <= i <= k ==> front[i] == ings[i];
        assert FirstMalformedAt(ings, posted, firstId, c, k);
      } else if !c.complete {
        ComposeCompleteIff(front, posted, firstId);
        assert forall i :: 0 <= i < n ==> front[i] == ings[i];
        assert ings[..n] == front;
        assert FirstMalformedAt(ings, posted, firstId, c, n);
      }
    }
  }

  /** One more step of the walk, as the loop of the create view takes it. */
  lemma ComposeStep(ings: Table<Ingredient>, posted: Form, firstId: nat, k: nat)
    requires k < |ings|
    ensures var prev := Compose(ings[..k], posted, firstId);
      Compose(ings[..k + 1], posted, firstId) ==
        if !prev.complete then prev
        else match Classify(posted, ings[k].val.name)
          case Skip => prev
          case Malformed => Composition(prev.lines, false)
          case Take(n) => Composition(prev.lines + [Row(firstId + |prev.lines|, PizzaIngredient(ings[k].id, n))], true)
  {
    assert ings[..k + 1][..k] == ings[..k];
  }

  /** A step that does not abort: `Skip` keeps the lines, `Take(n)` appends the next one. */
  lemma ComposeAdvances(ings: Table<Ingredient>, posted: Form, firstId: nat, k: nat, prev: Composition)
    requires k < |ings|
    requires prev == Compose(ings[..k], posted, firstId) && prev.complete
    requires Classify(posted, ings[k].val.name) != Malformed
    ensures Classify(posted, ings[k].val.name) == Skip ==> Compose(ings[..k + 1], posted, firstId) == prev
    ensures Classify(posted, ings[k].val.name).Take? ==>
      Compose(ings[..k + 1], posted, firstId) ==
        Composition(prev.lines + [Row(firstId + |prev.lines|,
          PizzaIngredient(ings[k].id, Classify(posted, ings[k].val.name).n))], true)
  {
    ComposeStep(ings, posted, firstId, k);
  }

  /** Once the walk aborts at ingredient `k`, the rest of the catalogue adds nothing. */
  lemma {:induction false} ComposeStopsHere(ings: Table<Ingredient>, posted: Form, firstId: nat, k: nat)
    requires k < |ings|
    requires Compose(ings[..k], posted, firstId).complete
    requires Classify(posted, ings[k].val.name) == Malformed
    ensures Compose(ings, posted, firstId) == Composition(Compose(ings[..k], posted, firstId).lines, false)
  {
    var n := |ings| - 1;
    var front := ings[..n];
    if k < n {
      assert front[..k] == ings[..k] && front[k] == ings[k];
      ComposeStopsHere(front, posted, firstId, k);
    } else {
      assert front == ings[..k];
    }
  }

  // ---------------------------------------------------- catalogue grouping

  /** One catalogue entry: `(i.pk, i.name, i.cost)`. */
  type Entry = (nat, string, real)

  /** `[(i.pk, i.name, i.cost) for i in Ingredient.objects.filter(group=group)]`. */
  function GroupEntries(ings: Table<Ingredient>, gid: nat): seq<Entry>
  {
    if ings == [] then []
    else
      (if ings[0].val.group == gid then [(ings[0].id, ings[0].val.name, ings[0].val.cost)] else [])
      + GroupEntries(ings[1..], gid)
  }

  /** A group's entries are exactly its ingredients' `(pk, name, cost)`. */
  lemma {:induction false} GroupEntriesMembers(ings: Table<Ingredient>, gid: nat)
    ensures forall e :: e in GroupEntries(ings, gid) <==>
      exists r :: r in ings && r.val.group == gid && e == (r.id, r.val.name, r.val.cost)
  {
    if ings != [] {
      GroupEntriesMembers(ings[1..], gid);
      assert forall r :: r in ings <==> r == ings[0] || r in ings[1..];
    }
  }

  /** Entries only come from the table, so keys above a bound stay above it. */
  lemma {:induction false} GroupEntriesAbove(ings: Table<Ingredient>, gid: nat, bound: int)
    requires forall i :: 0 <= i < |ings| ==> ings[i].id > bound
    ensures forall a :: 0 <= a < |GroupEntries(ings, gid)| ==> GroupEntries(ings, gid)[a].0 > bound
  {
    if ings != [] {
      assert forall i :: 0 <= i < |ings| - 1 ==> ings[1..][i] == ings[i + 1];
      GroupEntriesAbove(ings[1..], gid, bound);
    }
  }

  /** Over a catalogue in key order, a group's entries come in key order. */
  lemma {:induction false} GroupEntriesOrdered(ings: Table<Ingredient>, gid: nat)
    requires IdsIncreasing(ings)
    ensures forall a, b :: 0 <= a < b < |GroupEntries(ings, gid)| ==>
      GroupEntries(ings, gid)[a].0 < GroupEntries(ings, gid)[b].0
  {
    if ings != [] {
      var rest := ings[1..];
      assert forall i :: 0 <= i < |rest| ==> rest[i] == ings[i + 1];
      GroupEntriesOrdered(rest, gid);
      GroupEntriesAbove(rest, gid, ings[0].id);
    }
  }

  /** The `ingredients` dictionary: group name to its (pk, name, cost) entries. */
  type CatalogueMap = map<string, seq<Entry>>

  /** The `ingredients` dictionary after the context loop has visited `groups`. */
  function CatalogueOf(groups: Table<IngredientGroup>, ings: Table<Ingredient>): CatalogueMap
    decreases |groups|
  {
    if groups == [] then map[]
    else
      var last := groups[|groups| - 1];
      CatalogueOf(groups[..|groups| - 1], ings)[last.val.name := GroupEntries(ings, last.id)]
  }

  /** The catalogue has exactly one key per distinct group name. */
  lemma {:induction false} CatalogueKeys(groups: Table<IngredientGroup>, ings: Table<Ingredient>)
    ensures CatalogueOf(groups, ings).Keys == set g | g in groups :: g.val.name
  {
    if groups != [] {
      var front := groups[..|groups| - 1];
      CatalogueKeys(front, ings);
      assert groups == front + [groups[|groups| - 1]];
      assert forall g :: g in groups <==> g in front || g == groups[|groups| - 1];
    }
  }

  /** Under each name stand the entries of the last group carrying it: a later group of the same name replaces an earlier one. */
  lemma {:induction false} CatalogueLastWins(groups: Table<IngredientGroup>, ings: Table<Ingredient>, k: nat)
    requires k < |groups|
    requires forall j :: k < j < |groups| ==> groups[j].val.name != groups[k].val.name
    ensures groups[k].val.name in CatalogueOf(groups, ings)
    ensures CatalogueOf(groups, ings)[groups[k].val.name] == GroupEntries(ings, groups[k].id)
  {
    var n := |groups| - 1;
    if k < n {
      var front := groups[..n];
      assert front[k] == groups[k];
      CatalogueLastWins(front, ings, k);
    }
  }

  // ------------------------------------------------------------ order list

  /** Rows in non-increasing `created_date` order. */
  ghost predicate NewestFirst(t: Table<Order>)
  {
    forall i, j :: 0 <= i < j < |t| ==> t[i].val.createdDate >= t[j].val.createdDate
  }

  /** The rows after the first of a newest-first list are newest-first. */
  lemma NewestFirstTail(t: Table<Order>)
    requires t != []
    ensures NewestFirst(t) ==> NewestFirst(t[1..])
  {
    if NewestFirst(t) {
      forall i, j | 0 <= i < j < |t| - 1 ensures t[1..][i].val.createdDate >= t[1..][j].val.createdDate {
        assert t[1..][i] == t[i + 1] && t[1..][j] == t[j + 1];
      }
    }
  }

  /** A row no older than the head of a newest-first list can lead it. */
  lemma NewestFirstCons(r: Row<Order>, t: Table<Order>)
    ensures NewestFirst(t) && (t != [] ==> r.val.createdDate >= t[0].val.createdDate) ==>
      NewestFirst([r] + t)
  {
    if NewestFirst(t) && (t != [] ==> r.val.createdDate >= t[0].val.createdDate) {
      var f := [r] + t;
      forall i, j | 0 <= i < j < |f| ensures f[i].val.createdDate >= f[j].val.createdDate {
        assert f[j] == t[j - 1];
        if i == 0 {
          assert t[0].val.createdDate >= t[j - 1].val.createdDate || j == 1;
        } else {
          assert f[i] == t[i - 1];
        }
      }
    }
  }

  function InsertByDate(r: Row<Order>, t: Table<Order>): (s: Table<Order>)
    ensures multiset(s) == multiset(t) + multiset{r}
    ensures NewestFirst(t) ==> NewestFirst(s)
    ensures s != [] && (s[0] == r || (t != [] && s[0] == t[0]))
  {
    if t == [] then [r]
    else if r.val.createdDate >= t[0].val.createdDate then
      NewestFirstCons(r, t);
      [r] + t
    else
      var rest := InsertByDate(r, t[1..]);
      assert t == [t[0]] + t[1..];
      NewestFirstTail(t);
      assert NewestFirst(t) && |t| > 1 ==> t[0].val.createdDate >= t[1].val.createdDate;
      NewestFirstCons(t[0], rest);
      [t[0]] + rest
  }

  /** `order_by('-created_date')`, as an insertion sort; rows with equal dates keep their order. */
  function SortNewestFirst(t: Table<Order>): (s: Table<Order>)
    ensures multiset(s) == multiset(t)
    ensures NewestFirst(s)
  {
    if t == [] then []
    else
      assert t == [t[0]] + t[1..];
      InsertByDate(t[0], SortNewestFirst(t[1..]))
  }

  /** `Order.objects.exclude(is_created=False).order_by('-created_date')`. */
  function OrderList(orders: Table<Order>): (r: Table<Order>)
    ensures NewestFirst(r)
    ensures forall x :: x in r <==> x in orders && x.val.isCreated
    ensures multiset(r) == multiset(Filter(orders, (x: Row<Order>) => x.val.isCreated))
  {
    var created := Filter(orders, (x: Row<Order>) => x.val.isCreated);
    var s := SortNewestFirst(created);
    assert forall x :: x in s <==> x in multiset(s);
    assert forall x :: x in created <==> x in multiset(created);
    s
  }

  /** A freshly created order does not change the list: only submitted orders are listed. */
  lemma NewOrderUnlisted(orders: Table<Order>, id: nat, pizza: nat, now: Time)
    ensures OrderList(orders + [Row(id, NewOrder(pizza, now))]) == OrderList(orders)
  {
    var added := [Row(id, NewOrder(pizza, now))];
    FilterAppend(orders, added, (x: Row<Order>) => x.val.isCreated);
    assert added[1..] == [];
    assert Filter(added, (x: Row<Order>) => x.val.isCreated) == [];
    assert Filter(orders, (x: Row<Order>) => x.val.isCreated) + [] == Filter(orders, (x: Row<Order>) => x.val.isCreated);
  }

  /** A submitted order is listed, with its new contact fields. */
  lemma SubmittedListed(orders: Table<Order>, id: nat, email: string, phone: string, name: string)
    requires id in IdSet(orders)
    ensures var s := Submit(Get(orders, id).value, email, phone, name);
      Row(id, s) in OrderList(Put(orders, id, s))
  {
    var s := Submit(Get(orders, id).value, email, phone, name);
    var u := Put(orders, id, s);
    var k :| 0 <= k < |orders| && orders[k] == Row(id, Get(orders, id).value);
    assert u[k] == Row(id, s);
  }

  // ------------------------------------------------------- order lifecycle

  /** `form.save()` of the contact fields, then `is_created = True`. */
  function Submit(o: Order, email: string, phone: string, name: string): (s: Order)
    ensures s.email == Some(email) && s.phone == Some(phone) && s.name == Some(name) && s.isCreated
    ensures s.isConfirm == o.isConfirm && s.confirmedDate == o.confirmedDate
    ensures s.pizza == o.pizza && s.createdDate == o.createdDate
    ensures Lifecycle(o) ==> Lifecycle(s)
  {
    o.(email := Some(email), phone := Some(phone), name := Some(name), isCreated := true)
  }

  /** The confirm view's test: not confirmed yet, and the code recomputed from the order as it is now matches. */
  predicate ConfirmAccepts(env: CodeEnv, o: Order, code: string)
  {
    !o.isConfirm && GenerateConfirmCode(env, o) == code
  }

  /** `is_confirm = True`, `confirmed_date = now`. */
  function Confirmed(o: Order, now: Time): (c: Order)
    ensures c.isConfirm && c.confirmedDate == Some(now) && Lifecycle(c)
    ensures c.email == o.email && c.phone == o.phone && c.name == o.name
    ensures c.pizza == o.pizza && c.isCreated == o.isCreated && c.createdDate == o.createdDate
  {
    o.(isConfirm := true, confirmedDate := Some(now))
  }

  /** The code e-mailed on submission opens the order, unless it is confirmed already. */
  lemma EmailedCodeAccepted(env: CodeEnv, o: Order, email: string, phone: string, name: string)
    requires !o.isConfirm
    ensures var s := Submit(o, email, phone, name);
      ConfirmAccepts(env, s, GenerateConfirmCode(env, s))
  {
  }

  /** Once confirmed, no code is accepted again, so `confirmed_date` keeps its first value. */
  lemma ConfirmOnlyOnce(env: CodeEnv, o: Order, now: Time, code: string)
    ensures !ConfirmAccepts(env, Confirmed(o, now), code)
  {
  }

  /** Confirming does not depend on submission: a fresh order opens with its own code and stays unsubmitted. */
  lemma ConfirmWithoutSubmit(env: CodeEnv, pizza: nat, created: Time, now: Time)
    ensures var o := NewOrder(pizza, created);
      && ConfirmAccepts(env, o, GenerateConfirmCode(env, o))
      && Confirmed(o, now).isConfirm && !Confirmed(o, now).isCreated
  {
  }

  /**
   * Re-submitting the contact form with another address voids the link
   * sent for the first one: that link is accepted afterwards only if
   * SHA-256 maps two different texts to the same digest.
   */
  lemma ResubmitVoidsEarlierLink(env: CodeEnv, o: Order, e1: string, e2: string,
                                 p1: string, p2: string, n1: string, n2: string)
    requires e1 != e2
    ensures var s1 := Submit(o, e1, p1, n1);
      var s2 := Submit(s1, e2, p2, n2);
      var k1 := ConfirmKey(env.secretKey, env.dateText(o.createdDate), Some(e1));
      var k2 := ConfirmKey(env.secretKey, env.dateText(o.createdDate), Some(e2));
      ConfirmAccepts(env, s2, GenerateConfirmCode(env, s1)) ==>
        k1 != k2 && env.sha256Hex(k1) == env.sha256Hex(k2)
  {
    KeySeparatesEmails(env.secretKey, env.dateText(o.createdDate), Some(e1), Some(e2));
  }
}

/**
 * Exploding production lines into material demands: every linked component of
 * every usable recipe contributes, contributions for one material are added up,
 * and the sum is rounded up to three decimals. A line that cannot be exploded,
 * and a component that is not linked to stock, raise a blocker instead.
 */
module BomExplosion {
  import opened Common
  import opened DecimalQuantity
  import opened CeilToThree
  import opened BomUses

  datatype Entry = Entry(materialName: string, unit: string, requiredBy: int, sources: seq<Use>, total: string)

  datatype Demand = Demand(
    inventoryItemId: int, materialName: string, unit: string, grossQty: string, requiredBy: int, sources: seq<Use>)

  datatype Explosion = Explosion(demands: seq<Demand>, blockers: seq<Blocker>)

  /** Component quantity per batch times produced quantity, divided by the batch output. */
  function Contribution(u: Use): Option<string> {
    var product := MultiplyQuantities(u.item.qty, u.line.qty);
    if product.None? then None else DivideQuantities(product.value, u.recipe.outputQty)
  }

  function Scaled(u: Use): int {
    var c := Contribution(u);
    if c.Some? && ToScaled(c.value).Some? then ToScaled(c.value).value else 0
  }

  predicate Usable(u: Use) { Contribution(u).Some? && u.item.inventoryItemId.Some? }

  predicate AllUsable(uses: seq<Use>) { forall u :: u in uses ==> Usable(u) }

  // ------------------------------------------------------------- adding up

  function Total(uses: seq<Use>): int {
    if uses == [] then 0 else Total(uses[..|uses| - 1]) + Scaled(uses[|uses| - 1])
  }

  function Earliest(uses: seq<Use>): int
    requires uses != []
  {
    var n := |uses| - 1;
    if n == 0 then uses[0].line.requiredBy else Min(Earliest(uses[..n]), uses[n].line.requiredBy)
  }

  /** What is kept for a material that these uses, and no others, draw on. */
  function EntryFor(own: seq<Use>): Entry
    requires own != []
  {
    Entry(own[0].item.materialName, own[0].item.unit, Earliest(own), own, FromScaled(Total(own)))
  }

  /** `order` lists the keys in the order in which they came in. */
  ghost predicate Accumulated(acc: map<int, Entry>, order: seq<int>, uses: seq<Use>) {
    && (forall id :: if For(uses, id) == [] then id !in acc else id in acc && acc[id] == EntryFor(For(uses, id)))
    && (forall id :: id in order <==> id in acc)
    && (forall i, j :: 0 <= i < j < |order| ==> order[i] != order[j])
  }

  lemma ContributionReads(u: Use)
    requires Usable(u)
    ensures ToScaled(Contribution(u).value) == Some(Scaled(u))
  {
    hide ToScaled, FromScaled;
    var product := MultiplyQuantities(u.item.qty, u.line.qty).value;
    ReadWritten(RoundPositive(ToScaled(product).value * SCALE, ToScaled(u.recipe.outputQty).value));
  }

  lemma EntryStep(own: seq<Use>, u: Use, before: Entry)
    requires Usable(u)
    requires before ==
            if own == [] then Entry(u.item.materialName, u.item.unit, u.line.requiredBy, [], "0") else EntryFor(own)
    ensures before.sources == own && AddQuantities(before.total, Contribution(u).value).Some?
    ensures EntryFor(own + [u]) ==
            Entry(before.materialName, before.unit, Min(u.line.requiredBy, before.requiredBy), own + [u],
                  AddQuantities(before.total, Contribution(u).value).value)
  {
    hide ToScaled, Contribution, Scaled, AddQuantities;
    var all := own + [u];
    assert all[..|own|] == own && all[|own|] == u;
    ContributionReads(u);
    ReadWritten(Total(own));
    assert before.total == FromScaled(Total(own));
    hide FromScaled;
    var sum := SumIsExact(before.total, Contribution(u).value, Total(own), Scaled(u));
  }

  method AddUse(acc: map<int, Entry>, order: seq<int>, ghost uses: seq<Use>, u: Use)
    returns (next: map<int, Entry>, keys: seq<int>)
    requires Accumulated(acc, order, uses) && Usable(u)
    ensures Accumulated(next, keys, uses + [u])
  {
    hide Contribution, AddQuantities, EntryFor, ToScaled, For, Accumulated;
    var id, contribution := u.item.inventoryItemId.value, Contribution(u).value;
    BeforeUse(acc, order, uses, id);
    var entry := if id in acc then acc[id] else Entry(u.item.materialName, u.item.unit, u.line.requiredBy, [], "0");
    EntryStep(For(uses, id), u, entry);
    entry := entry.(total := AddQuantities(entry.total, contribution).value);
    if u.line.requiredBy < entry.requiredBy {
      entry := entry.(requiredBy := u.line.requiredBy);
    }
    entry := entry.(sources := entry.sources + [u]);
    next := acc[id := entry];
    keys := if id in acc then order else order + [id];
    AfterUse(acc, order, uses, u, entry);
  }

  lemma BeforeUse(acc: map<int, Entry>, order: seq<int>, uses: seq<Use>, id: int)
    requires Accumulated(acc, order, uses)
    ensures if id in acc then For(uses, id) != [] && acc[id] == EntryFor(For(uses, id)) else For(uses, id) == []
  {
    hide For, EntryFor;
  }

  lemma AfterUse(acc: map<int, Entry>, order: seq<int>, uses: seq<Use>, u: Use, entry: Entry)
    requires Accumulated(acc, order, uses) && u.item.inventoryItemId.Some?
    requires var id := u.item.inventoryItemId.value; entry == EntryFor(For(uses, id) + [u])
    ensures var id := u.item.inventoryItemId.value;
            Accumulated(acc[id := entry], if id in acc then order else order + [id], uses + [u])
  {
    hide For, EntryFor;
    var id := u.item.inventoryItemId.value;
    forall other ensures For(uses + [u], other) == if other == id then For(uses, id) + [u] else For(uses, other) {
      ForSnoc(uses, u, other);
    }
  }

  method Block(blockers: seq<Blocker>, seen: set<Key>, b: Blocker, ghost raised: seq<Blocker>,
      ghost recipes: seq<Recipe>)
    returns (noted: seq<Blocker>, keys: set<Key>)
    requires Noted(blockers, seen, raised, recipes) && WellNamed(b, recipes)
    ensures Noted(noted, keys, raised + [b], recipes)
  {
    hide FindRecipe, FirstSeen;
    FirstSeenGrows(blockers, raised, b);
    noted, keys := blockers, seen;
    if KeyOf(b) in seen {
      var other :| other in blockers && KeyOf(other) == KeyOf(b);
      assert other == b;
    } else {
      assert b !in blockers;
      noted, keys := noted + [b], keys + {KeyOf(b)};
    }
  }

  // -------------------------------------------------------------- the program

  function Gross(own: seq<Use>): Option<string> { CeilDecimalToThree(FromScaled(Total(own))) }

  predicate Readable(q: Option<string>) { q.Some? && ToScaled(q.value).Some? }

  function DemandFor(id: int, own: seq<Use>): Demand
    requires own != [] && Gross(own).Some?
  {
    var e := EntryFor(own);
    Demand(id, e.materialName, e.unit, Gross(own).value, e.requiredBy, e.sources)
  }

  /** The material needs something: its rounded total is above zero. */
  predicate Needed(own: seq<Use>) {
    own != [] && Readable(Gross(own)) && ToScaled(Gross(own).value).value > 0
  }

  ghost predicate AscendingIds(ds: seq<Demand>) {
    forall i, j :: 0 <= i < j < |ds| ==> ds[i].inventoryItemId < ds[j].inventoryItemId
  }

  /** One demand for each needed material among `ids`, and no other, in id order. */
  ghost predicate Reports(ds: seq<Demand>, uses: seq<Use>, ids: seq<int>) {
    && AscendingIds(ds)
    && (forall d :: d in ds ==>
          var own := For(uses, d.inventoryItemId);
          d.inventoryItemId in ids && Needed(own) && d == DemandFor(d.inventoryItemId, own))
    && (forall id :: id in ids && Needed(For(uses, id)) ==> exists d :: d in ds && d.inventoryItemId == id)
  }

  function InsertById(d: Demand, ds: seq<Demand>): seq<Demand> {
    if ds == [] || d.inventoryItemId < ds[0].inventoryItemId then [d] + ds else [ds[0]] + InsertById(d, ds[1..])
  }

  lemma {:induction false} InsertByIdKeeps(d: Demand, ds: seq<Demand>)
    requires AscendingIds(ds) && forall e :: e in ds ==> e.inventoryItemId != d.inventoryItemId
    ensures AscendingIds(InsertById(d, ds))
    ensures forall e :: e in InsertById(d, ds) <==> e == d || e in ds
  {
    if ds == [] || d.inventoryItemId < ds[0].inventoryItemId {
    } else {
      var r := InsertById(d, ds[1..]);
      InsertByIdKeeps(d, ds[1..]);
      forall j | 0 <= j < |r| ensures ds[0].inventoryItemId < r[j].inventoryItemId {
        assert r[j] in r;
      }
    }
  }

  /** The values of the map in order, rounded, filtered and sorted; none where reading a rounded total throws. */
  method CollectDemands(acc: map<int, Entry>, order: seq<int>, ghost uses: seq<Use>) returns (r: Option<seq<Demand>>)
    requires Accumulated(acc, order, uses)
    ensures r.Some? ==> Reports(r.value, uses, order)
    ensures r.Some? <==> forall id :: id in order ==> Readable(Gross(For(uses, id)))
  {
    hide Total, Earliest, For, CeilDecimalToThree, ToScaled, FromScaled;
    var demands: seq<Demand> := [];
    for k := 0 to |order|
      invariant Reports(demands, uses, order[..k])
      invariant forall id :: id in order[..k] ==> Readable(Gross(For(uses, id)))
    {
      var id := order[k];
      assert id in order && id in acc;
      var entry := acc[id];
      assert entry == EntryFor(For(uses, id));
      var gross := CeilDecimalToThree(entry.total);
      assert gross == Gross(For(uses, id));
      if gross.None? || ToScaled(gross.value).None? {
        return None;
      }
      var d := Demand(id, entry.materialName, entry.unit, gross.value, entry.requiredBy, entry.sources);
      assert id !in order[..k] && order[..k + 1] == order[..k] + [id];
      ReportOne(demands, uses, order[..k], id, d);
      if ToScaled(gross.value).value > 0 {
        demands := InsertById(d, demands);
      }
    }
    assert order[..|order|] == order;
    r := Some(demands);
  }

  lemma ReportOne(ds: seq<Demand>, uses: seq<Use>, ids: seq<int>, id: int, d: Demand)
    requires Reports(ds, uses, ids) && id !in ids && For(uses, id) != [] && Readable(Gross(For(uses, id)))
    requires d == DemandFor(id, For(uses, id))
    ensures Reports(if Needed(For(uses, id)) then InsertById(d, ds) else ds, uses, ids + [id])
  {
    hide For, Gross, DemandFor, ToScaled, Total, Earliest, FromScaled, CeilDecimalToThree, InsertById;
    assert d.inventoryItemId == id by { DemandHasId(id, For(uses, id)); }
    if Needed(For(uses, id)) {
      InsertByIdKeeps(d, ds);
      var more := InsertById(d, ds);
      assert d in more;
      forall other | other in ids + [id] && Needed(For(uses, other))
        ensures exists e :: e in more && e.inventoryItemId == other
      {
        if other != id {
          var e :| e in ds && e.inventoryItemId == other;
          assert e in more;
        }
      }
    }
  }

  lemma DemandHasId(id: int, own: seq<Use>)
    requires own != [] && Gross(own).Some?
    ensures DemandFor(id, own).inventoryItemId == id
  {
  }

  lemma {:induction false} UsesGrow(lines: seq<Line>, recipes: seq<Recipe>, k: nat)
    requires k <= |lines|
    ensures forall u :: u in Uses(lines[..k], recipes) ==> u in Uses(lines, recipes)
    decreases |lines|
  {
    if k < |lines| {
      UsesGrow(lines[..|lines| - 1], recipes, k);
      assert lines[..|lines| - 1][..k] == lines[..k];
    } else {
      assert lines[..k] == lines;
    }
  }

  lemma {:induction false} ItemUsesGrow(r: Recipe, items: seq<Item>, lineNo: nat, line: Line, k: nat)
    requires k <= |items|
    ensures forall u :: u in ItemUses(r, items[..k], lineNo, line) ==> u in ItemUses(r, items, lineNo, line)
    decreases |items|
  {
    if k < |items| {
      ItemUsesGrow(r, items[..|items| - 1], lineNo, line, k);
      assert items[..|items| - 1][..k] == items[..k];
    } else {
      assert items[..k] == items;
    }
  }

  /**
   * The explosion of one usable line: its linked components are added up, the
   * others are noted as blockers. False where a quantity cannot be read.
   */
  method ExplodeLine(r: Recipe, line: Line, lineNo: nat, acc: map<int, Entry>, order: seq<int>,
                     blockers: seq<Blocker>, seen: set<Key>,
                     ghost uses: seq<Use>, ghost raised: seq<Blocker>, ghost recipes: seq<Recipe>)
    returns (ok: bool, acc': map<int, Entry>, order': seq<int>, blockers': seq<Blocker>, seen': set<Key>)
    requires Accumulated(acc, order, uses) && Noted(blockers, seen, raised, recipes)
            && FindRecipe(recipes, r.id) == Some(r)
    ensures ok <==> AllUsable(ItemUses(r, r.items, lineNo, line))
    ensures ok ==> Accumulated(acc', order', uses + ItemUses(r, r.items, lineNo, line))
    ensures Noted(blockers', seen', raised + UnlinkedBlockers(r, r.items), recipes) || !ok
  {
    hide Accumulated, Noted, Contribution, FindRecipe;
    acc', order', blockers', seen' := acc, order, blockers, seen;
    ok := true;
    assert uses + [] == uses && raised + [] == raised;
    UnlinkedWellNamed(r, r.items, recipes);
    for j := 0 to |r.items|
      invariant AllUsable(ItemUses(r, r.items[..j], lineNo, line)) && ok
      invariant Accumulated(acc', order', uses + ItemUses(r, r.items[..j], lineNo, line))
      invariant Noted(blockers', seen', raised + UnlinkedBlockers(r, r.items[..j]), recipes)
    {
      var item := r.items[j];
      var upto := r.items[..j + 1];
      assert upto[..j] == r.items[..j] && upto[j] == item;
      ghost var us, bs := ItemUses(r, r.items[..j], lineNo, line), UnlinkedBlockers(r, r.items[..j]);
      if item.inventoryItemId.None? {
        ItemBlockerNamed(r, item, recipes);
        blockers', seen' := Block(blockers', seen', ItemBlocker(r, item), raised + bs, recipes);
        assert raised + bs + [ItemBlocker(r, item)] == raised + (bs + [ItemBlocker(r, item)]);
        assert us + [] == us;
      } else {
        var u := Use(r, item, lineNo, line);
        if Contribution(u).None? {
          ItemUsesGrow(r, r.items, lineNo, line, j + 1);
          assert u in ItemUses(r, upto, lineNo, line);
          ok := false;
          return;
        }
        acc', order' := AddUse(acc', order', uses + us, u);
        assert uses + us + [u] == uses + (us + [u]);
        assert bs + [] == bs;
      }
    }
    assert r.items[..|r.items|] == r.items;
  }

  lemma ItemBlockerNamed(r: Recipe, item: Item, recipes: seq<Recipe>)
    requires FindRecipe(recipes, r.id) == Some(r)
    ensures WellNamed(ItemBlocker(r, item), recipes)
  {
  }

  /**
   * The explosion. The demands are one per needed material with everything the
   * lines draw on it; the blockers are exactly those some line raises, once
   * each. There is no result exactly where the program throws, and no demand is
   * missing.
   */
  method ExplodeBomLines(lines: seq<Line>, recipes: seq<Recipe>) returns (r: Option<Explosion>)
    ensures r.Some? <==>
              && AllUsable(Uses(lines, recipes))
              && forall id :: For(Uses(lines, recipes), id) != [] ==> Readable(Gross(For(Uses(lines, recipes), id)))
    ensures r.Some? ==> ReportsAll(r.value.demands, Uses(lines, recipes))
    ensures r.Some? ==> SameBlockers(r.value.blockers, Raised(lines, recipes))
    ensures r.Some? ==> Tells(r.value, lines, recipes)
  {
    hide Tells;
    hide Contribution, Gross, Uses, Raised, LineBlocker, FindRecipe, Accumulated, Noted, For, ReportsAll, SameBlockers;
    var acc: map<int, Entry>, order: seq<int>, blockers: seq<Blocker>, seen: set<Key> := map[], [], [], {};
    NothingYet(recipes);
    for i := 0 to |lines|
      invariant AllUsable(Uses(lines[..i], recipes)) && Accumulated(acc, order, Uses(lines[..i], recipes))
      invariant Noted(blockers, seen, Raised(lines[..i], recipes), recipes)
    {
      var line := lines[i];
      ghost var us, bs := Uses(lines[..i], recipes), Raised(lines[..i], recipes);
      NextLine(lines, recipes, i);
      var blocker := LineBlocker(line, recipes);
      if blocker.Some? {
        BlockedLine(line, i + 1, recipes);
        assert us + [] == us;
        blockers, seen := Block(blockers, seen, blocker.value, bs, recipes);
      } else {
        UsableLine(line, i + 1, recipes);
        var recipe := FindRecipe(recipes, line.bomRecipeId).value;
        var ok, acc', order', blockers', seen' := ExplodeLine(recipe, line, i + 1, acc, order, blockers, seen, us, bs,
          recipes);
        if !ok {
          UsesGrow(lines, recipes, i + 1);
          return None;
        }
        acc, order, blockers, seen := acc', order', blockers', seen';
      }
    }
    assert lines[..|lines|] == lines;
    var demands := CollectDemands(acc, order, Uses(lines, recipes));
    Concluded(acc, order, Uses(lines, recipes), demands, blockers, seen, Raised(lines, recipes), recipes);
    if demands.None? {
      return None;
    }
    r := Some(Explosion(demands.value, blockers));
    ExplosionTells(r.value, lines, recipes);
  }

  lemma NothingYet(recipes: seq<Recipe>)
    ensures Uses([], recipes) == [] && Raised([], recipes) == []
    ensures Accumulated(map[], [], []) && Noted([], {}, [], recipes)
  {
  }

  lemma NextLine(lines: seq<Line>, recipes: seq<Recipe>, i: nat)
    requires i < |lines|
    ensures Uses(lines[..i + 1], recipes) == Uses(lines[..i], recipes) + LineUses(lines[i], i + 1, recipes)
    ensures Raised(lines[..i + 1], recipes) == Raised(lines[..i], recipes) + LineBlockers(lines[i], recipes)
  {
    assert lines[..i + 1][..i] == lines[..i];
  }

  lemma BlockedLine(line: Line, lineNo: nat, recipes: seq<Recipe>)
    requires LineBlocker(line, recipes).Some?
    ensures LineUses(line, lineNo, recipes) == [] && LineBlockers(line, recipes) == [LineBlocker(line, recipes).value]
    ensures WellNamed(LineBlocker(line, recipes).value, recipes)
  {
    LineBlockersWellNamed(line, recipes);
    assert LineBlocker(line, recipes).value in LineBlockers(line, recipes);
  }

  lemma UsableLine(line: Line, lineNo: nat, recipes: seq<Recipe>)
    requires LineBlocker(line, recipes).None?
    ensures FindRecipe(recipes, line.bomRecipeId).Some?
    ensures var r := FindRecipe(recipes, line.bomRecipeId).value;
            && FindRecipe(recipes, r.id) == Some(r)
            && LineUses(line, lineNo, recipes) == ItemUses(r, r.items, lineNo, line)
            && LineBlockers(line, recipes) == UnlinkedBlockers(r, r.items)
  {
    FoundUnderItsId(recipes, line.bomRecipeId);
  }

  lemma Concluded(acc: map<int, Entry>, order: seq<int>, uses: seq<Use>, demands: Option<seq<Demand>>,
                  blockers: seq<Blocker>, seen: set<Key>, raised: seq<Blocker>, recipes: seq<Recipe>)
    requires Accumulated(acc, order, uses) && Noted(blockers, seen, raised, recipes)
    requires demands.Some? ==> Reports(demands.value, uses, order)
    requires demands.Some? <==> forall id :: id in order ==> Readable(Gross(For(uses, id)))
    ensures SameBlockers(blockers, raised)
    ensures demands.Some? ==> ReportsAll(demands.value, uses)
    ensures demands.Some? <==> forall id :: For(uses, id) != [] ==> Readable(Gross(For(uses, id)))
  {
    hide Gross, For, EntryFor, FindRecipe;
    forall id ensures id in acc <==> For(uses, id) != [] {}
  }

  ghost predicate ReportsAll(ds: seq<Demand>, uses: seq<Use>) {
    && AscendingIds(ds)
    && (forall d :: d in ds ==>
          Needed(For(uses, d.inventoryItemId)) && d == DemandFor(d.inventoryItemId, For(uses, d.inventoryItemId)))
    && (forall id :: Needed(For(uses, id)) ==> exists d :: d in ds && d.inventoryItemId == id)
  }

  ghost predicate SameBlockers(blockers: seq<Blocker>, raised: seq<Blocker>) {
    && (forall b :: b in blockers <==> b in raised)
    && (forall i, j :: 0 <= i < j < |blockers| ==> blockers[i] != blockers[j])
    && FirstSeen(blockers, raised)
  }

  /** A demand names all that draws on its material, in order, and takes its name, unit and earliest date from there. */
  ghost predicate DemandTells(d: Demand, lines: seq<Line>, recipes: seq<Recipe>) {
    && AreSources(d.sources, lines, recipes, d.inventoryItemId) && d.sources != []
    && d.materialName == d.sources[0].item.materialName && d.unit == d.sources[0].item.unit
    && (forall u :: u in d.sources ==> d.requiredBy <= u.line.requiredBy)
    && (exists u :: u in d.sources && d.requiredBy == u.line.requiredBy)
    && CeilDecimalToThree(FromScaled(Total(d.sources))) == Some(d.grossQty)
  }

  /**
   * What an explosion says, in terms of the lines and recipes alone: its demands
   * as above, by ascending ids, and a blocker if and only if some line gives a
   * reason for it.
   */
  ghost predicate Tells(e: Explosion, lines: seq<Line>, recipes: seq<Recipe>) {
    && AscendingIds(e.demands)
    && (forall d :: d in e.demands ==> DemandTells(d, lines, recipes))
    && (forall b :: b in e.blockers <==> exists line :: line in lines && Raises(line, recipes, b))
    && (forall i, j :: 0 <= i < j < |e.blockers| ==> e.blockers[i] != e.blockers[j])
  }

  lemma DemandTellsAll(d: Demand, lines: seq<Line>, recipes: seq<Recipe>)
    requires Needed(For(Uses(lines, recipes), d.inventoryItemId))
    requires d == DemandFor(d.inventoryItemId, For(Uses(lines, recipes), d.inventoryItemId))
    ensures DemandTells(d, lines, recipes)
  {
    SourcesExactly(lines, recipes, d.inventoryItemId);
    hide AreSources, Uses, For, CeilDecimalToThree, FromScaled, ToScaled, Total, Earliest;
    EarliestIsMinimum(For(Uses(lines, recipes), d.inventoryItemId));
  }

  lemma ExplosionTells(e: Explosion, lines: seq<Line>, recipes: seq<Recipe>)
    requires ReportsAll(e.demands, Uses(lines, recipes)) && SameBlockers(e.blockers, Raised(lines, recipes))
    ensures Tells(e, lines, recipes)
  {
    hide DemandTells, Uses, For, Needed, DemandFor, Raised, Raises, FirstSeen;
    forall b ensures b in e.blockers <==> exists line :: line in lines && Raises(line, recipes, b) {
      RaisedExactly(lines, recipes, b);
    }
    forall d | d in e.demands ensures DemandTells(d, lines, recipes) {
      DemandTellsAll(d, lines, recipes);
    }
  }

  // ------------------------------------------------------------ what is promised

  lemma {:induction false} ItemIsUsedOrBlocked(r: Recipe, items: seq<Item>, lineNo: nat, line: Line, k: nat)
    requires k < |items|
    ensures if items[k].inventoryItemId.Some? then Use(r, items[k], lineNo, line) in ItemUses(r, items, lineNo, line)
            else ItemBlocker(r, items[k]) in UnlinkedBlockers(r, items)
    decreases |items|
  {
    if k < |items| - 1 { ItemIsUsedOrBlocked(r, items[..|items| - 1], lineNo, line, k); }
  }

  lemma {:induction false} LineIsIn(lines: seq<Line>, recipes: seq<Recipe>, i: nat)
    requires i < |lines|
    ensures forall u :: u in LineUses(lines[i], i + 1, recipes) ==> u in Uses(lines, recipes)
    ensures forall b :: b in LineBlockers(lines[i], recipes) ==> b in Raised(lines, recipes)
    decreases |lines|
  {
    hide LineUses, LineBlockers;
    if i < |lines| - 1 { LineIsIn(lines[..|lines| - 1], recipes, i); }
  }

  /** Nothing is dropped silently: each component of the recipe that a line explodes is added up or blocked, */
  lemma EveryComponentIsAccountedFor(lines: seq<Line>, recipes: seq<Recipe>, i: nat, r: Recipe, k: nat)
    requires i < |lines| && IsRecipe(recipes, lines[i].bomRecipeId, r) && Explodes(r) && k < |r.items|
    ensures var item := r.items[k];
            if item.inventoryItemId.Some? then Use(r, item, i + 1, lines[i]) in Uses(lines, recipes)
            else Blocker(ItemUnlinked, r.id, Some(r.productName), Some(item.materialName)) in Raised(lines, recipes)
  {
    LineIsIn(lines, recipes, i);
    RecipeFound(recipes, lines[i].bomRecipeId);
    ItemIsUsedOrBlocked(r, r.items, i + 1, lines[i], k);
    hide FindRecipe, IsRecipe, PositiveQuantity, Uses, Raised, ItemUses, UnlinkedBlockers;
    assert FindRecipe(recipes, lines[i].bomRecipeId) == Some(r);
  }

  /** and a line that explodes no recipe raises a blocker that says why. */
  lemma EveryLineIsAccountedFor(lines: seq<Line>, recipes: seq<Recipe>, i: nat)
    requires i < |lines| && forall r :: IsRecipe(recipes, lines[i].bomRecipeId, r) ==> !Explodes(r)
    ensures exists b :: b in Raised(lines, recipes) && b.code != ItemUnlinked && Raises(lines[i], recipes, b)
  {
    LineIsIn(lines, recipes, i);
    RecipeFound(recipes, lines[i].bomRecipeId);
    hide FindRecipe, IsRecipe, PositiveQuantity, Raises, Raised;
    var b := LineBlocker(lines[i], recipes);
    assert b.Some?;
    assert b.value in LineBlockers(lines[i], recipes);
    LineRaisesExactly(lines[i], recipes, b.value);
  }

  /** A component of an exploded recipe adds something up exactly when its own and the line's quantity can be read. */
  lemma UsableExactly(u: Use)
    requires PositiveQuantity(u.recipe.outputQty) && u.item.inventoryItemId.Some?
    ensures Usable(u) <==> ToScaled(u.item.qty).Some? && ToScaled(u.line.qty).Some?
  {
    hide ToScaled, FromScaled;
    if ToScaled(u.item.qty).Some? && ToScaled(u.line.qty).Some? {
      ReadWritten(RoundPositive(ToScaled(u.item.qty).value * ToScaled(u.line.qty).value, SCALE));
    }
  }

  /** Non-negative quantities and a positive batch output, as the request checks enforce. */
  predicate Sane(u: Use) {
    && ToScaled(u.item.qty).Some? && ToScaled(u.item.qty).value >= 0
    && ToScaled(u.line.qty).Some? && ToScaled(u.line.qty).value >= 0
    && PositiveQuantity(u.recipe.outputQty)
    && u.item.inventoryItemId.Some?
  }

  lemma SaneContribution(u: Use) returns (m: nat, c: nat)
    requires Sane(u)
    ensures Usable(u) && Scaled(u) == c
    ensures Nearest(m, ToScaled(u.item.qty).value * ToScaled(u.line.qty).value, SCALE)
    ensures Nearest(c, m * SCALE, ToScaled(u.recipe.outputQty).value)
  {
    hide ToScaled, FromScaled;
    var x, y, o := ToScaled(u.item.qty).value, ToScaled(u.line.qty).value, ToScaled(u.recipe.outputQty).value;
    hide MultiplyQuantities, DivideQuantities;
    m := ProductIsNearest(u.item.qty, u.line.qty, x, y);
    c := QuotientIsNearest(FromScaled(m), u.recipe.outputQty, m, o);
  }

  lemma {:induction false} TotalIsNonNegative(own: seq<Use>)
    requires forall u :: u in own ==> Sane(u)
    ensures Total(own) >= 0
  {
    if own != [] {
      var n := |own| - 1;
      TotalIsNonNegative(own[..n]);
      var m, c := SaneContribution(own[n]);
    }
  }

  /** The gross quantity is the least multiple of 0.001 that covers the sum of the recorded contributions. */
  lemma GrossIsLeastMultiple(own: seq<Use>)
    requires forall u :: u in own ==> Sane(u)
    ensures Readable(Gross(own))
    ensures var g := ToScaled(Gross(own).value).value;
            && g % 1000 == 0 && Total(own) <= g
            && (forall k: int :: Total(own) <= k * 1000 ==> g <= k * 1000)
            && (Needed(own) <==> Total(own) > 0)
  {
    hide ToScaled, CeilDecimalToThree, FromScaled, Sane;
    TotalIsNonNegative(own);
    if own == [] { assert Total(own) == 0; }
    hide Total;
    CeilingIsLeast(Total(own));
    LeastMultiple(Total(own));
  }

  lemma LeastMultiple(v: nat)
    ensures CeilDiv(v, 1000) * 1000 % 1000 == 0
    ensures forall k: int :: v <= k * 1000 ==> CeilDiv(v, 1000) * 1000 <= k * 1000
    ensures CeilDiv(v, 1000) * 1000 > 0 <==> v > 0
  {
  }

  /** The exact need of one use, in millionths. */
  function ExactNeed(u: Use): real
    requires Sane(u)
  {
    (ToScaled(u.item.qty).value * ToScaled(u.line.qty).value) as real / ToScaled(u.recipe.outputQty).value as real
  }

  /** Half a millionth for the division, and half a millionth of a batch's share for the product. */
  function Slack(u: Use): real
    requires Sane(u)
  {
    0.5 * (1.0 + SCALE as real / ToScaled(u.recipe.outputQty).value as real)
  }

  lemma TwoRoundings(p: int, m: int, c: int, o: int)
    requires o > 0 && Nearest(m, p, SCALE) && Nearest(c, m * SCALE, o)
    ensures -(o + SCALE) <= 2 * (c * o - p) <= o + SCALE
  {
  }

  lemma CastProduct(c: int, o: nat)
    ensures c as real * o as real == (c * o) as real
  {
    if o > 0 {
      CastProduct(c, o - 1);
      assert c * o == c * (o - 1) + c;
      assert o as real == (o - 1) as real + 1.0;
    }
  }

  lemma DivideBoth(c: int, p: int, o: int)
    requires o > 0 && -(o + SCALE) <= 2 * (c * o - p) <= o + SCALE
    ensures var exact, slack := p as real / o as real, 0.5 * (1.0 + SCALE as real / o as real);
            exact - slack <= c as real <= exact + slack
  {
    var d := o as real;
    var x, s := p as real / d, SCALE as real / d;
    DivideThenMultiply(p as real, d);
    DivideThenMultiply(SCALE as real, d);
    var gap := c as real - x;
    CastProduct(c, o);
    Distribute(c as real, -x, d);
    assert gap * d == (c * o - p) as real;
    AtMost(gap, s, d);
    Distribute(-gap, 0.0, d);
    AtMost(-gap, s, d);
  }

  lemma DivideThenMultiply(x: real, d: real)
    requires d > 0.0
    ensures x / d * d == x
  {
  }

  lemma Distribute(x: real, y: real, d: real)
    ensures (x + y) * d == x * d + y * d && -x * d == -(x * d)
  {
  }

  lemma AtMost(gap: real, s: real, d: real)
    requires d > 0.0 && 2.0 * (gap * d) <= d + s * d
    ensures 2.0 * gap <= 1.0 + s
  {
    Distribute(1.0, s, d);
    Distribute(1.0 + s, -(2.0 * gap), d);
    Distribute(gap, gap, d);
    Distribute(2.0 * gap, 0.0, d);
    PositiveFactor(1.0 + s - 2.0 * gap, d);
  }

  lemma PositiveFactor(x: real, d: real)
    requires d > 0.0 && x * d >= 0.0
    ensures x >= 0.0
  {
  }

  lemma UseIsClose(u: Use)
    requires Sane(u)
    ensures ExactNeed(u) - Slack(u) <= Scaled(u) as real <= ExactNeed(u) + Slack(u)
  {
    hide ToScaled, FromScaled, Scaled, Contribution;
    var m, c := SaneContribution(u);
    var p, o := ToScaled(u.item.qty).value * ToScaled(u.line.qty).value, ToScaled(u.recipe.outputQty).value;
    TwoRoundings(p, m, c, o);
    DivideBoth(c, p, o);
  }

  function ExactTotal(own: seq<Use>): real
    requires forall u :: u in own ==> Sane(u)
  {
    if own == [] then 0.0 else ExactTotal(own[..|own| - 1]) + ExactNeed(own[|own| - 1])
  }

  function TotalSlack(own: seq<Use>): real
    requires forall u :: u in own ==> Sane(u)
  {
    if own == [] then 0.0 else TotalSlack(own[..|own| - 1]) + Slack(own[|own| - 1])
  }

  lemma {:induction false} TotalIsClose(own: seq<Use>)
    requires forall u :: u in own ==> Sane(u)
    ensures ExactTotal(own) - TotalSlack(own) <= Total(own) as real <= ExactTotal(own) + TotalSlack(own)
  {
    hide Scaled, ExactNeed, Slack, Sane;
    if own != [] {
      var n := |own| - 1;
      TotalIsClose(own[..n]);
      UseIsClose(own[n]);
    }
  }

  /**
   * The exact need exceeds the gross quantity by no more than the rounding of its contributions, and
   * the excess is as small.
   */
  lemma GrossCoversNeed(own: seq<Use>)
    requires forall u :: u in own ==> Sane(u)
    ensures Readable(Gross(own))
    ensures var g := ToScaled(Gross(own).value).value as real;
            ExactTotal(own) - TotalSlack(own) <= g < ExactTotal(own) + TotalSlack(own) + 1000.0
  {
    hide ToScaled, CeilDecimalToThree, FromScaled, Sane, ExactTotal, TotalSlack, Total;
    TotalIsClose(own);
    GrossIsLeastMultiple(own);
    var g := ToScaled(Gross(own).value).value;
    TotalIsNonNegative(own);
    CeilingIsLeast(Total(own));
  }

  // ------------------------------------------------------ order of the lines

  /** What one line adds to one material. */
  function LineTotal(line: Line, recipes: seq<Recipe>, id: int): int {
    Total(For(LineUses(line, 0, recipes), id))
  }

  function SumOfLines(lines: seq<Line>, recipes: seq<Recipe>, id: int): int {
    if lines == [] then 0 else LineTotal(lines[0], recipes, id) + SumOfLines(lines[1..], recipes, id)
  }

  lemma {:induction false} TotalConcat(a: seq<Use>, b: seq<Use>)
    ensures Total(a + b) == Total(a) + Total(b)
    decreases |b|
  {
    hide Scaled;
    if b == [] {
      assert a + b == a;
    } else {
      var n := |b| - 1;
      TotalConcat(a, b[..n]);
      assert (a + b)[..|a + b| - 1] == a + b[..n];
    }
  }

  lemma SameAmount(r: Recipe, item: Item, k: nat, m: nat, line: Line)
    ensures Scaled(Use(r, item, k, line)) == Scaled(Use(r, item, m, line))
  {
    hide MultiplyQuantities, DivideQuantities, ToScaled;
  }

  /** The line number is only recorded: it does not change what is added up. */
  lemma {:induction false} LineNumberIsNoMatter(r: Recipe, items: seq<Item>, k: nat, m: nat, line: Line, id: int)
    ensures Total(For(ItemUses(r, items, k, line), id)) == Total(For(ItemUses(r, items, m, line), id))
    ensures For(ItemUses(r, items, k, line), id) == [] <==> For(ItemUses(r, items, m, line), id) == []
    decreases |items|
  {
    hide Scaled, For;
    if items == [] {
      assert ItemUses(r, items, k, line) == ItemUses(r, items, m, line);
    } else {
      var n := |items| - 1;
      LineNumberIsNoMatter(r, items[..n], k, m, line, id);
      ForLastItem(r, items, k, line, id);
      ForLastItem(r, items, m, line, id);
      SameAmount(r, items[n], k, m, line);
      TotalConcat(For(ItemUses(r, items[..n], k, line), id), [Use(r, items[n], k, line)]);
      TotalConcat(For(ItemUses(r, items[..n], m, line), id), [Use(r, items[n], m, line)]);
      TotalOfOne(Use(r, items[n], k, line));
      TotalOfOne(Use(r, items[n], m, line));
      hide Total;
      assert forall s: seq<Use> :: s + [] == s;
    }
  }

  lemma TotalOfOne(u: Use)
    ensures Total([u]) == Scaled(u)
  {
    hide Scaled;
    assert [u][..0] == [];
  }

  lemma LineTotalAnyNumber(line: Line, k: nat, recipes: seq<Recipe>, id: int)
    ensures Total(For(LineUses(line, k, recipes), id)) == LineTotal(line, recipes, id)
    ensures For(LineUses(line, k, recipes), id) == [] <==> For(LineUses(line, 0, recipes), id) == []
  {
    hide Total, For;
    if LineBlocker(line, recipes).None? {
      var r := FindRecipe(recipes, line.bomRecipeId).value;
      LineNumberIsNoMatter(r, r.items, k, 0, line, id);
    }
  }

  lemma {:induction false} SumOfLinesSnoc(lines: seq<Line>, line: Line, recipes: seq<Recipe>, id: int)
    ensures SumOfLines(lines + [line], recipes, id) == SumOfLines(lines, recipes, id) + LineTotal(line, recipes, id)
    decreases |lines|
  {
    hide LineTotal;
    var all := lines + [line];
    if lines == [] {
      assert all[1..] == [];
    } else {
      SumOfLinesSnoc(lines[1..], line, recipes, id);
      assert all[1..] == lines[1..] + [line];
    }
  }

  lemma {:induction false} TotalByLines(lines: seq<Line>, recipes: seq<Recipe>, id: int)
    ensures Total(For(Uses(lines, recipes), id)) == SumOfLines(lines, recipes, id)
    decreases |lines|
  {
    hide LineTotal, LineUses;
    if lines != [] {
      var n := |lines| - 1;
      assert lines == lines[..n] + [lines[n]];
      TotalByLines(lines[..n], recipes, id);
      SumOfLinesSnoc(lines[..n], lines[n], recipes, id);
      LineTotalAnyNumber(lines[n], n + 1, recipes, id);
      ForConcat(Uses(lines[..n], recipes), LineUses(lines[n], n + 1, recipes), id);
      TotalConcat(For(Uses(lines[..n], recipes), id), For(LineUses(lines[n], n + 1, recipes), id));
      hide Total, For;
    }
  }

  lemma {:induction false} SumWithout(lines: seq<Line>, k: nat, recipes: seq<Recipe>, id: int)
    requires k < |lines|
    ensures SumOfLines(lines, recipes, id) == LineTotal(lines[k], recipes, id)
            + SumOfLines(Without(lines, k), recipes, id)
    decreases |lines|
  {
    hide LineTotal;
    if k > 0 {
      SumWithout(lines[1..], k - 1, recipes, id);
      assert Without(lines, k)[1..] == Without(lines[1..], k - 1);
    } else {
      assert Without(lines, k) == lines[1..];
    }
  }

  lemma {:induction false} SumInAnyOrder(a: seq<Line>, b: seq<Line>, recipes: seq<Recipe>, id: int)
    requires multiset(a) == multiset(b)
    ensures SumOfLines(a, recipes, id) == SumOfLines(b, recipes, id)
    decreases |b|
  {
    hide LineTotal;
    if b == [] {
      assert |multiset(a)| == 0;
    } else {
      var k := FindFirst(a, b);
      SumWithout(a, k, recipes, id);
      SumInAnyOrder(Without(a, k), b[1..], recipes, id);
    }
  }

  /** The lines that draw on a material. */
  predicate Draws(line: Line, recipes: seq<Recipe>, id: int) { For(LineUses(line, 0, recipes), id) != [] }

  lemma {:induction false} ItemUsesLine(r: Recipe, items: seq<Item>, k: nat, line: Line)
    ensures forall u :: u in ItemUses(r, items, k, line) ==> u.line == line
  {
    if items != [] { ItemUsesLine(r, items[..|items| - 1], k, line); }
  }

  lemma OneLineDates(line: Line, k: nat, recipes: seq<Recipe>, id: int)
    ensures var own := For(LineUses(line, k, recipes), id);
            && (forall u :: u in own ==> u.line == line)
            && (own != [] <==> Draws(line, recipes, id))
  {
    LineTotalAnyNumber(line, k, recipes, id);
    ForMembers(LineUses(line, k, recipes), id);
    if LineBlocker(line, recipes).None? {
      var r := FindRecipe(recipes, line.bomRecipeId).value;
      ItemUsesLine(r, r.items, k, line);
    }
    hide For;
  }

  /** The dates recorded for a material are those of the lines that draw on it. */
  ghost predicate DatesFrom(own: seq<Use>, lines: seq<Line>, recipes: seq<Recipe>, id: int) {
    && (forall u :: u in own ==> u.line in lines && Draws(u.line, recipes, id))
    && (forall l :: l in lines && Draws(l, recipes, id) ==> exists u :: u in own && u.line == l)
  }

  lemma DatesSnoc(before: seq<Use>, now: seq<Use>, lines: seq<Line>, line: Line, recipes: seq<Recipe>, id: int)
    requires DatesFrom(before, lines, recipes, id)
    requires (forall u :: u in now ==> u.line == line) && (now != [] <==> Draws(line, recipes, id))
    ensures DatesFrom(before + now, lines + [line], recipes, id)
  {
    hide Draws;
    forall l | l in lines + [line] && Draws(l, recipes, id) ensures exists u: Use :: u in before + now && u.line == l {
      if l in lines {
        var u :| u in before && u.line == l;
        assert u in before + now;
      } else {
        assert now[0] in before + now;
      }
    }
  }

  lemma {:induction false} DrawnDates(lines: seq<Line>, recipes: seq<Recipe>, id: int)
    ensures DatesFrom(For(Uses(lines, recipes), id), lines, recipes, id)
    decreases |lines|
  {
    if lines == [] {
      hide LineUses, Draws;
      assert For(Uses(lines, recipes), id) == [];
    } else {
      hide For, Draws, LineUses, Uses, DatesFrom, LineBlocker, FindRecipe, ItemUses;
      var n := |lines| - 1;
      DrawnDates(lines[..n], recipes, id);
      OneLineDates(lines[n], n + 1, recipes, id);
      UsesSnoc(lines, recipes);
      var us := LineUses(lines[n], n + 1, recipes);
      ForConcat(Uses(lines[..n], recipes), us, id);
      DatesSnoc(For(Uses(lines[..n], recipes), id), For(us, id), lines[..n], lines[n], recipes, id);
      assert lines == lines[..n] + [lines[n]];
    }
  }

  lemma UsesSnoc(lines: seq<Line>, recipes: seq<Recipe>)
    requires lines != []
    ensures Uses(lines, recipes) == Uses(lines[..|lines| - 1], recipes) + LineUses(lines[|lines| - 1], |lines|, recipes)
  {
  }

  lemma {:induction false} EarliestIsMinimum(own: seq<Use>)
    requires own != []
    ensures forall u :: u in own ==> Earliest(own) <= u.line.requiredBy
    ensures exists u :: u in own && u.line.requiredBy == Earliest(own)
    decreases |own|
  {
    var n := |own| - 1;
    assert own == own[..n] + [own[n]];
    if n > 0 {
      EarliestIsMinimum(own[..n]);
      if Earliest(own) != own[n].line.requiredBy {
        var u :| u in own[..n] && u.line.requiredBy == Earliest(own[..n]);
        assert u in own;
      } else {
        assert own[n] in own;
      }
    } else {
      assert own[0] in own;
    }
  }

  /** Totals, gross quantities and earliest dates do not depend on the order of the lines. */
  lemma OrderIsNoMatter(a: seq<Line>, b: seq<Line>, recipes: seq<Recipe>, id: int)
    requires multiset(a) == multiset(b)
    ensures var p, q := For(Uses(a, recipes), id), For(Uses(b, recipes), id);
            && Total(p) == Total(q) && Gross(p) == Gross(q)
            && (p == [] <==> q == []) && (p != [] ==> Earliest(p) == Earliest(q))
  {
    hide Total, Earliest, LineTotal, Uses, For, CeilDecimalToThree, Draws;
    TotalByLines(a, recipes, id);
    TotalByLines(b, recipes, id);
    SumInAnyOrder(a, b, recipes, id);
    DrawnDates(a, recipes, id);
    DrawnDates(b, recipes, id);
    var p, q := For(Uses(a, recipes), id), For(Uses(b, recipes), id);
    forall l ensures l in a <==> l in b {
      assert l in multiset(a) <==> l in multiset(b);
    }
    if p != [] { EarliestIsMinimum(p); assert p[0] in p; }
    if q != [] { EarliestIsMinimum(q); assert q[0] in q; }
  }
}

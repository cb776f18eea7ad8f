/**
 * What exploding production lines draws on: the recipe behind a line, the linked
 * components of usable recipes, and the blockers of all others; and what that
 * means in terms of the lines and recipes alone.
 */
module BomUses {
  import opened Common
  import opened DecimalQuantity

  datatype Item = Item(id: int, inventoryItemId: Option<int>, materialName: string, qty: string, unit: string)

  datatype Recipe = Recipe(id: int, productName: string, outputQty: string, isActive: bool, items: seq<Item>)

  datatype Line = Line(bomRecipeId: int, qty: string, requiredBy: int)

  datatype BlockerCode = RecipeMissing | RecipeInactive | RecipeEmpty | ItemUnlinked | BadOutputQty

  datatype Blocker = Blocker(
    code: BlockerCode, recipeId: int, productName: Option<string>, materialName: Option<string>)

  /** One linked component on one line: a contribution and where it comes from. */
  datatype Use = Use(recipe: Recipe, item: Item, lineNo: nat, line: Line)

  // ------------------------------------------------------------- what a line uses

  /** The recipe stored last under the id. */
  function FindRecipe(recipes: seq<Recipe>, id: int): Option<Recipe> {
    if recipes == [] then None
    else if recipes[|recipes| - 1].id == id then Some(recipes[|recipes| - 1])
    else FindRecipe(recipes[..|recipes| - 1], id)
  }

  predicate PositiveQuantity(q: string) { ToScaled(q).Some? && ToScaled(q).value > 0 }

  /** From a millionth on a quantity is positive. */
  lemma PositiveExactly(v: int)
    ensures PositiveQuantity(FromScaled(v)) <==> v > 0
  {
    ReadWritten(v);
  }

  /** Why a line is not exploded at all, if so. */
  function LineBlocker(line: Line, recipes: seq<Recipe>): Option<Blocker> {
    var found := FindRecipe(recipes, line.bomRecipeId);
    if found.None? then Some(Blocker(RecipeMissing, line.bomRecipeId, None, None))
    else
      var r := found.value;
      if !r.isActive then Some(Blocker(RecipeInactive, r.id, Some(r.productName), None))
      else if !PositiveQuantity(r.outputQty) then Some(Blocker(BadOutputQty, r.id, Some(r.productName), None))
      else if r.items == [] then Some(Blocker(RecipeEmpty, r.id, Some(r.productName), None))
      else None
  }

  function ItemBlocker(r: Recipe, item: Item): Blocker {
    Blocker(ItemUnlinked, r.id, Some(r.productName), Some(item.materialName))
  }

  function ItemUses(r: Recipe, items: seq<Item>, lineNo: nat, line: Line): seq<Use> {
    if items == [] then []
    else
      var n := |items| - 1;
      ItemUses(r, items[..n], lineNo, line)
      + if items[n].inventoryItemId.None? then [] else [Use(r, items[n], lineNo, line)]
  }

  function LineUses(line: Line, lineNo: nat, recipes: seq<Recipe>): seq<Use> {
    if LineBlocker(line, recipes).Some? then []
    else
      var r := FindRecipe(recipes, line.bomRecipeId).value;
      ItemUses(r, r.items, lineNo, line)
  }

  /** Everything the lines use, in the order in which it is added up. */
  function Uses(lines: seq<Line>, recipes: seq<Recipe>): seq<Use> {
    if lines == [] then []
    else
      var n := |lines| - 1;
      Uses(lines[..n], recipes) + LineUses(lines[n], n + 1, recipes)
  }

  // --------------------------------------------------------- uses of one material

  function For(uses: seq<Use>, id: int): seq<Use> {
    if uses == [] then []
    else
      var n := |uses| - 1;
      For(uses[..n], id) + if uses[n].item.inventoryItemId == Some(id) then [uses[n]] else []
  }

  lemma ForSnoc(uses: seq<Use>, u: Use, id: int)
    ensures For(uses + [u], id) == if u.item.inventoryItemId == Some(id) then For(uses, id) + [u] else For(uses, id)
  {
    var all := uses + [u];
    assert all[..|uses|] == uses && all[|uses|] == u;
    assert For(uses, id) + [] == For(uses, id);
  }

  lemma {:induction false} ForMembers(uses: seq<Use>, id: int)
    ensures forall u :: u in For(uses, id) <==> u in uses && u.item.inventoryItemId == Some(id)
    decreases |uses|
  {
    if uses != [] {
      var n := |uses| - 1;
      ForMembers(uses[..n], id);
      assert uses == uses[..n] + [uses[n]];
    }
  }

  lemma {:induction false} ForConcat(a: seq<Use>, b: seq<Use>, id: int)
    ensures For(a + b, id) == For(a, id) + For(b, id)
    decreases |b|
  {
    if b == [] {
      assert a + b == a;
    } else {
      var n := |b| - 1;
      ForConcat(a, b[..n], id);
      assert (a + b)[..|a + b| - 1] == a + b[..n];
    }
  }

  lemma ForLastItem(r: Recipe, items: seq<Item>, k: nat, line: Line, id: int)
    requires items != []
    ensures var n := |items| - 1;
            var before := For(ItemUses(r, items[..n], k, line), id);
            For(ItemUses(r, items, k, line), id) ==
              before + if items[n].inventoryItemId == Some(id) then [Use(r, items[n], k, line)] else []
  {
    var n := |items| - 1;
    var us := ItemUses(r, items[..n], k, line);
    if items[n].inventoryItemId.Some? {
      var u := Use(r, items[n], k, line);
      assert (us + [u])[..|us|] == us && (us + [u])[|us|] == u;
    } else {
      assert us + [] == us;
    }
    assert For(us, id) + [] == For(us, id);
  }

  // --------------------------------------------------------------- blockers

  function UnlinkedBlockers(r: Recipe, items: seq<Item>): seq<Blocker> {
    if items == [] then []
    else
      var n := |items| - 1;
      UnlinkedBlockers(r, items[..n]) + if items[n].inventoryItemId.None? then [ItemBlocker(r, items[n])] else []
  }

  function LineBlockers(line: Line, recipes: seq<Recipe>): seq<Blocker> {
    var b := LineBlocker(line, recipes);
    if b.Some? then [b.value]
    else
      var r := FindRecipe(recipes, line.bomRecipeId).value;
      UnlinkedBlockers(r, r.items)
  }

  function Raised(lines: seq<Line>, recipes: seq<Recipe>): seq<Blocker> {
    if lines == [] then []
    else
      var n := |lines| - 1;
      Raised(lines[..n], recipes) + LineBlockers(lines[n], recipes)
  }

  type Key = (BlockerCode, int, string)

  function KeyOf(b: Blocker): Key {
    (b.code, b.recipeId, if b.materialName.Some? then b.materialName.value else "")
  }

  /** A blocker as some line raises it: named after the recipe it concerns. */
  predicate WellNamed(b: Blocker, recipes: seq<Recipe>) {
    && (b.materialName.Some? <==> b.code == ItemUnlinked)
    && (b.code == RecipeMissing ==> b.productName == None)
    && (b.code != RecipeMissing ==>
          FindRecipe(recipes, b.recipeId).Some?
            && b.productName == Some(FindRecipe(recipes, b.recipeId).value.productName))
  }

  lemma {:induction false} FoundUnderItsId(recipes: seq<Recipe>, id: int)
    ensures FindRecipe(recipes, id).Some? ==>
            FindRecipe(recipes, id).value.id == id && FindRecipe(recipes, id).value in recipes
  {
    if recipes != [] { FoundUnderItsId(recipes[..|recipes| - 1], id); }
  }

  lemma {:induction false} UnlinkedWellNamed(r: Recipe, items: seq<Item>, recipes: seq<Recipe>)
    requires FindRecipe(recipes, r.id) == Some(r)
    ensures forall b :: b in UnlinkedBlockers(r, items) ==> WellNamed(b, recipes)
  {
    if items != [] { UnlinkedWellNamed(r, items[..|items| - 1], recipes); }
  }

  lemma LineBlockersWellNamed(line: Line, recipes: seq<Recipe>)
    ensures forall b :: b in LineBlockers(line, recipes) ==> WellNamed(b, recipes)
  {
    FoundUnderItsId(recipes, line.bomRecipeId);
    if LineBlocker(line, recipes).None? {
      var r := FindRecipe(recipes, line.bomRecipeId).value;
      UnlinkedWellNamed(r, r.items, recipes);
    }
  }

  /** The blockers stand in the order in which they are first raised. */
  ghost predicate FirstSeen(blockers: seq<Blocker>, raised: seq<Blocker>) {
    forall i, j :: 0 <= i < j < |blockers| ==> RaisedEarlier(blockers[i], blockers[j], raised)
  }

  ghost predicate RaisedEarlier(a: Blocker, b: Blocker, raised: seq<Blocker>) {
    exists p :: 0 <= p < |raised| && raised[p] == a && b !in raised[..p + 1]
  }

  lemma FirstSeenGrows(blockers: seq<Blocker>, raised: seq<Blocker>, b: Blocker)
    requires FirstSeen(blockers, raised) && forall x :: x in blockers <==> x in raised
    ensures FirstSeen(blockers, raised + [b])
    ensures b !in blockers ==> FirstSeen(blockers + [b], raised + [b])
  {
    forall x, y | RaisedEarlier(x, y, raised) ensures RaisedEarlier(x, y, raised + [b]) {
      var p :| 0 <= p < |raised| && raised[p] == x && y !in raised[..p + 1];
      assert (raised + [b])[..p + 1] == raised[..p + 1];
    }
    if b !in blockers {
      forall x | x in blockers ensures RaisedEarlier(x, b, raised + [b]) {
        assert x in raised;
        var p :| 0 <= p < |raised| && raised[p] == x;
        assert (raised + [b])[..p + 1] == raised[..p + 1];
      }
    }
    hide RaisedEarlier;
  }

  /** What has been noted so far: each raised blocker once, whatever repeats it. */
  ghost predicate Noted(blockers: seq<Blocker>, seen: set<Key>, raised: seq<Blocker>, recipes: seq<Recipe>) {
    && (forall b :: b in blockers <==> b in raised)
    && (forall i, j :: 0 <= i < j < |blockers| ==> blockers[i] != blockers[j])
    && seen == (set b | b in blockers :: KeyOf(b))
    && (forall b :: b in blockers ==> WellNamed(b, recipes))
    && FirstSeen(blockers, raised)
  }

  // ------------------------------------------- in terms of lines and recipes alone

  /** `r` is the recipe stored last under the id. */
  ghost predicate IsRecipe(recipes: seq<Recipe>, id: int, r: Recipe) {
    exists k: nat :: IsLast(recipes, id, k) && recipes[k] == r
  }

  ghost predicate IsLast(recipes: seq<Recipe>, id: int, k: nat) {
    k < |recipes| && recipes[k].id == id && forall m :: k < m < |recipes| ==> recipes[m].id != id
  }

  lemma {:induction false} RecipeFound(recipes: seq<Recipe>, id: int)
    ensures FindRecipe(recipes, id).None? <==> forall r :: r in recipes ==> r.id != id
    ensures forall r :: FindRecipe(recipes, id) == Some(r) <==> IsRecipe(recipes, id, r)
  {
    if recipes != [] {
      var n := |recipes| - 1;
      var init := recipes[..n];
      RecipeFound(init, id);
      assert recipes == init + [recipes[n]];
      if recipes[n].id == id {
        assert IsLast(recipes, id, n);
        forall k: nat | IsLast(recipes, id, k) ensures k == n {}
      } else {
        forall k: nat ensures IsLast(recipes, id, k) <==> IsLast(init, id, k) {}
        forall r ensures IsRecipe(recipes, id, r) <==> IsRecipe(init, id, r) {
          if IsRecipe(recipes, id, r) {
            var k: nat :| IsLast(recipes, id, k) && recipes[k] == r;
            assert IsLast(init, id, k) && init[k] == r;
          }
          if IsRecipe(init, id, r) {
            var k: nat :| IsLast(init, id, k) && init[k] == r;
            assert IsLast(recipes, id, k) && recipes[k] == r;
          }
        }
      }
    }
  }

  /** A recipe that is explored: it is in use, makes something, and has components. */
  predicate Explodes(r: Recipe) { r.isActive && PositiveQuantity(r.outputQty) && r.items != [] }

  /** Why a line raises a blocker: each of the five, in the order in which they are looked at. */
  ghost predicate Raises(line: Line, recipes: seq<Recipe>, b: Blocker) {
    if b.code == RecipeMissing then
      && (forall r :: r in recipes ==> r.id != line.bomRecipeId)
      && b == Blocker(RecipeMissing, line.bomRecipeId, None, None)
    else
      exists r :: IsRecipe(recipes, line.bomRecipeId, r) && RaisesFor(r, b)
  }

  predicate RaisesFor(r: Recipe, b: Blocker) {
    && b.recipeId == r.id && b.productName == Some(r.productName)
    && match b.code
       case RecipeMissing => false
       case RecipeInactive => !r.isActive && b.materialName == None
       case BadOutputQty => r.isActive && !PositiveQuantity(r.outputQty) && b.materialName == None
       case RecipeEmpty =>
         r.isActive && PositiveQuantity(r.outputQty) && r.items == [] && b.materialName == None
       case ItemUnlinked =>
         && Explodes(r)
         && exists item :: item in r.items && item.inventoryItemId.None? && b.materialName == Some(item.materialName)
  }

  lemma {:induction false} UnlinkedExactly(r: Recipe, items: seq<Item>, b: Blocker)
    ensures b in UnlinkedBlockers(r, items) <==>
            exists item :: item in items && item.inventoryItemId.None? && b == ItemBlocker(r, item)
  {
    if items != [] {
      var n := |items| - 1;
      UnlinkedExactly(r, items[..n], b);
      assert items == items[..n] + [items[n]];
    }
  }

  lemma LineRaisesExactly(line: Line, recipes: seq<Recipe>, b: Blocker)
    ensures b in LineBlockers(line, recipes) <==> Raises(line, recipes, b)
  {
    RecipeFound(recipes, line.bomRecipeId);
    var found := FindRecipe(recipes, line.bomRecipeId);
    if found.Some? {
      var r := found.value;
      UnlinkedExactly(r, r.items, b);
      assert IsRecipe(recipes, line.bomRecipeId, r);
      forall q | IsRecipe(recipes, line.bomRecipeId, q) ensures q == r { assert found == Some(q); }
      hide IsRecipe, FindRecipe, PositiveQuantity;
      assert b in LineBlockers(line, recipes) <==> RaisesFor(r, b) by { RaisedForExactly(line, recipes, r, b); }
    }
  }

  lemma RaisedForExactly(line: Line, recipes: seq<Recipe>, r: Recipe, b: Blocker)
    requires FindRecipe(recipes, line.bomRecipeId) == Some(r)
    ensures b in LineBlockers(line, recipes) <==> RaisesFor(r, b)
  {
    UnlinkedExactly(r, r.items, b);
    hide FindRecipe, PositiveQuantity, UnlinkedBlockers;
    if b.code == ItemUnlinked && b.materialName.Some? {
      forall item | item in r.items
        ensures b == ItemBlocker(r, item) <==>
                b.recipeId == r.id && b.productName == Some(r.productName) && b.materialName == Some(item.materialName)
      {
      }
    }
  }

  /** The blockers raised are those some line gives a reason for. */
  lemma {:induction false} RaisedExactly(lines: seq<Line>, recipes: seq<Recipe>, b: Blocker)
    ensures b in Raised(lines, recipes) <==> exists line :: line in lines && Raises(line, recipes, b)
  {
    hide LineBlockers, Raises;
    if lines != [] {
      var n := |lines| - 1;
      RaisedExactly(lines[..n], recipes, b);
      LineRaisesExactly(lines[n], recipes, b);
      assert lines == lines[..n] + [lines[n]];
    }
  }

  /** Component `k` of the line's recipe draws on the material. */
  ghost predicate DrawsOn(line: Line, recipes: seq<Recipe>, k: nat, id: int) {
    exists r :: IsRecipe(recipes, line.bomRecipeId, r) && Linked(r, k, id)
  }

  predicate Linked(r: Recipe, k: nat, id: int) {
    Explodes(r) && k < |r.items| && r.items[k].inventoryItemId == Some(id)
  }

  /** The use that records it; lines are numbered from one. */
  ghost predicate IsUse(u: Use, line: Line, i: nat, recipes: seq<Recipe>, k: nat, id: int) {
    && u.line == line && u.lineNo == i + 1
    && IsRecipe(recipes, line.bomRecipeId, u.recipe) && Linked(u.recipe, k, id) && u.item == u.recipe.items[k]
  }

  predicate Before(a: (nat, nat), b: (nat, nat)) { a.0 < b.0 || (a.0 == b.0 && a.1 < b.1) }

  /** First by line, then by component. */
  ghost predicate InOrder(at: seq<(nat, nat)>) { forall p, q :: 0 <= p < q < |at| ==> Before(at[p], at[q]) }

  /** The uses stand for the places `at`: line and component. */
  ghost predicate Record(us: seq<Use>, at: seq<(nat, nat)>, lines: seq<Line>, recipes: seq<Recipe>, id: int) {
    && |at| == |us|
    && (forall p :: 0 <= p < |us| ==> at[p].0 < |lines| && IsUse(us[p], lines[at[p].0], at[p].0, recipes, at[p].1, id))
  }

  ghost predicate Complete(at: seq<(nat, nat)>, lines: seq<Line>, recipes: seq<Recipe>, id: int) {
    forall i: nat, k: nat :: i < |lines| && DrawsOn(lines[i], recipes, k, id) ==> (i, k) in at
  }

  /** The uses of a material are recorded once each, in the order of lines and components, and none is left out. */
  ghost predicate AreSources(us: seq<Use>, lines: seq<Line>, recipes: seq<Recipe>, id: int) {
    exists at :: Record(us, at, lines, recipes, id) && InOrder(at) && Complete(at, lines, recipes, id)
  }

  /** The same for line `i` alone. */
  ghost predicate OfLine(us: seq<Use>, here: seq<(nat, nat)>, line: Line, i: nat, recipes: seq<Recipe>, id: int) {
    && |here| == |us| && InOrder(here)
    && (forall p :: 0 <= p < |us| ==> here[p].0 == i && IsUse(us[p], line, i, recipes, here[p].1, id))
    && (forall k: nat :: DrawsOn(line, recipes, k, id) ==> (i, k) in here)
  }

  /** The linked components among `items`, by position. */
  ghost predicate OfItems(
    us: seq<Use>, here: seq<(nat, nat)>, r: Recipe, items: seq<Item>, i: nat, line: Line, id: int)
  {
    && |here| == |us| && InOrder(here)
    && (forall p :: 0 <= p < |us| ==>
          && here[p].0 == i && here[p].1 < |items| && items[here[p].1].inventoryItemId == Some(id)
          && us[p] == Use(r, items[here[p].1], i + 1, line))
    && (forall k: nat :: k < |items| && items[k].inventoryItemId == Some(id) ==> (i, k) in here)
  }

  lemma {:induction false} ItemPlaces(r: Recipe, items: seq<Item>, i: nat, line: Line, id: int)
    returns (here: seq<(nat, nat)>)
    ensures OfItems(For(ItemUses(r, items, i + 1, line), id), here, r, items, i, line, id)
  {
    here := [];
    if items == [] {
      assert ItemUses(r, items, i + 1, line) == [];
    } else {
      hide For, ItemUses, OfItems;
      var n := |items| - 1;
      here := ItemPlaces(r, items[..n], i, line, id);
      ForLastItem(r, items, i + 1, line, id);
      var us := For(ItemUses(r, items[..n], i + 1, line), id);
      NextItemPlaced(us, here, r, items, i, line, id);
      if items[n].inventoryItemId == Some(id) {
        here := here + [(i, n)];
      } else {
        assert us + [] == us;
      }
    }
  }

  lemma NextItemPlaced(us: seq<Use>, here: seq<(nat, nat)>, r: Recipe, items: seq<Item>, i: nat, line: Line, id: int)
    requires items != [] && OfItems(us, here, r, items[..|items| - 1], i, line, id)
    ensures var n := |items| - 1;
            if items[n].inventoryItemId == Some(id) then
              OfItems(us + [Use(r, items[n], i + 1, line)], here + [(i, n)], r, items, i, line, id)
            else OfItems(us, here, r, items, i, line, id)
  {
    var n := |items| - 1;
    forall k: nat | k < n && items[k].inventoryItemId == Some(id) ensures (i, k) in here {
      assert items[..n][k] == items[k];
    }
  }

  lemma LinePlaces(line: Line, i: nat, recipes: seq<Recipe>, id: int) returns (here: seq<(nat, nat)>)
    ensures OfLine(For(LineUses(line, i + 1, recipes), id), here, line, i, recipes, id)
  {
    RecipeFound(recipes, line.bomRecipeId);
    hide IsRecipe, FindRecipe, PositiveQuantity, For, ItemUses, OfItems, OfLine, Linked;
    var found := FindRecipe(recipes, line.bomRecipeId);
    here := [];
    if LineBlocker(line, recipes).None? {
      here := ItemPlaces(found.value, found.value.items, i, line, id);
      ItemsAreLine(For(LineUses(line, i + 1, recipes), id), here, found.value, line, i, recipes, id);
    } else {
      NothingDrawn(line, i, recipes, id);
      assert LineUses(line, i + 1, recipes) == [];
    }
  }

  lemma ItemsAreLine(us: seq<Use>, here: seq<(nat, nat)>, r: Recipe, line: Line, i: nat, recipes: seq<Recipe>, id: int)
    requires OfItems(us, here, r, r.items, i, line, id) && Explodes(r)
    requires forall q :: IsRecipe(recipes, line.bomRecipeId, q) <==> q == r
    ensures OfLine(us, here, line, i, recipes, id)
  {
    hide IsRecipe, InOrder;
  }

  lemma NothingDrawn(line: Line, i: nat, recipes: seq<Recipe>, id: int)
    requires forall q :: IsRecipe(recipes, line.bomRecipeId, q) ==> !Explodes(q)
    ensures OfLine(For([], id), [], line, i, recipes, id)
  {
    hide IsRecipe;
  }

  lemma {:induction false} SourcesExactly(lines: seq<Line>, recipes: seq<Recipe>, id: int)
    ensures AreSources(For(Uses(lines, recipes), id), lines, recipes, id)
    decreases |lines|
  {
    if lines == [] {
      assert Record([], [], lines, recipes, id) && InOrder([]) && Complete([], lines, recipes, id);
    } else {
      var n := |lines| - 1;
      SourcesExactly(lines[..n], recipes, id);
      var here := LinePlaces(lines[n], n, recipes, id);
      ForConcat(Uses(lines[..n], recipes), LineUses(lines[n], n + 1, recipes), id);
      var front, us := For(Uses(lines[..n], recipes), id), For(LineUses(lines[n], n + 1, recipes), id);
      hide For, LineUses, Record, InOrder, Complete, OfLine;
      var before :|
        Record(front, before, lines[..n], recipes, id) && InOrder(before) && Complete(before, lines[..n], recipes, id);
      NextLineRecorded(front, before, us, here, lines, recipes, id);
    }
  }

  lemma NextLineRecorded(front: seq<Use>, before: seq<(nat, nat)>, us: seq<Use>, here: seq<(nat, nat)>,
      lines: seq<Line>, recipes: seq<Recipe>, id: int)
    requires lines != [] && OfLine(us, here, lines[|lines| - 1], |lines| - 1, recipes, id)
    requires Record(front, before, lines[..|lines| - 1], recipes, id) && InOrder(before)
    requires Complete(before, lines[..|lines| - 1], recipes, id)
    ensures Record(front + us, before + here, lines, recipes, id) && InOrder(before + here)
    ensures Complete(before + here, lines, recipes, id)
  {
    hide IsUse, DrawsOn;
    var n, at := |lines| - 1, before + here;
    forall i: nat, k: nat | i < |lines| && DrawsOn(lines[i], recipes, k, id) ensures (i, k) in at {
      if i < n { assert (i, k) in before; } else { assert (i, k) in here; }
    }
  }
}

/**
 * The selection step of the daily job: keep the valid rows, show an error page when
 * none is left, otherwise reorder them at random, keep at most three and render one
 * block per kept row.
 */
module MenuSelection {
  import opened MenuRows
  import opened ShuffleSort
  import opened JsArray

  /** How many rows `slice(0, 3)` keeps at most. */
  const PickCount: nat := 3

  function Min(a: nat, b: nat): nat {
    if a <= b then a else b
  }

  /** The cells one menu block shows: name (also the link target and image alt text), thumbnail, ingredients, recipe video. */
  datatype Block = Block(name: Option<string>, thumbnail: Option<string>, ingredients: Option<string>, video: Option<string>)

  /** What the job writes to the page: the error page, or the menu page made of its blocks in order. */
  datatype Page = ErrorPage | MenuPage(blocks: seq<Block>)

  /** The cells `generateHTMLBlock(menu)` interpolates. */
  function BlockOf(row: Row): Block {
    Block(Lookup(row, NameField), Lookup(row, ThumbnailField), Lookup(row, IngredientsField), Lookup(row, VideoField))
  }

  /** `selected.map(generateHTMLBlock)`: one block per selected row, in selection order. */
  function RenderBlocks(selected: seq<Row>): (blocks: seq<Block>)
    ensures |blocks| == |selected|
    ensures forall k :: 0 <= k < |selected| ==> blocks[k] == BlockOf(selected[k])
  {
    if selected == [] then [] else [BlockOf(selected[0])] + RenderBlocks(selected[1..])
  }

  /**
   * `menus.sort(...).slice(0, 3)` as a value: the k-th selected row is the valid row at
   * position `perm[k]`, and there are three of them or all of them when fewer exist.
   */
  function Selection(menus: seq<Row>, perm: seq<nat>): (selected: seq<Row>)
    requires IsPermutation(perm, |menus|)
    ensures |selected| == Min(PickCount, |menus|)
    ensures forall k :: 0 <= k < |selected| ==> selected[k] == menus[perm[k]]
  {
    Permute(menus, perm)[..Min(PickCount, |menus|)]
  }

  /**
   * The selection draws from the pool without reuse: no position of the pool is chosen
   * twice, so no row is shown more often than it occurs among the valid rows.
   */
  lemma SelectionDrawsWithoutReuse(menus: seq<Row>, perm: seq<nat>)
    requires IsPermutation(perm, |menus|)
    ensures forall k, l :: 0 <= k < l < |Selection(menus, perm)| ==> perm[k] != perm[l]
    ensures multiset(Selection(menus, perm)) <= multiset(menus)
  {
    var shuffled := Permute(menus, perm);
    var m := Min(PickCount, |menus|);
    PermutePreservesMultiset(menus, perm);
    assert shuffled == shuffled[..m] + shuffled[m..];
  }

  /** Every row on the menu page is a valid row taken from the parsed sheet. */
  lemma SelectionFromValidRows(allRows: seq<Row>, perm: seq<nat>)
    requires IsPermutation(perm, |FilterValid(allRows)|)
    ensures forall r :: r in Selection(FilterValid(allRows), perm) ==> r in allRows && IsValidMenu(r)
  {
    var menus := FilterValid(allRows);
    forall r | r in Selection(menus, perm)
      ensures r in allRows && IsValidMenu(r)
    {
      FilterMembership(allRows, IsValidMenu, r);
    }
  }

  /**
   * `menus.sort(() => 0.5 - Math.random()).slice(0, 3)`: the array is reordered in
   * place and its first three rows (or all, when there are fewer) are copied out.
   */
  method SortAndSlice(menus: array<Row>, perm: seq<nat>) returns (selected: seq<Row>)
    requires IsPermutation(perm, menus.Length)
    modifies menus
    ensures menus[..] == Permute(old(menus[..]), perm)
    ensures selected == Selection(old(menus[..]), perm)
  {
    SortInPlace(menus, perm);
    selected := menus[..Min(PickCount, menus.Length)];
  }

  /**
   * The selection part of `run()`: `perm` is the order the engine's sort happens to
   * produce for the valid rows. With no valid row the error page is the result and no
   * sorting takes place; otherwise the menu page holds one block for each of the first
   * three (or fewer) rows of the reordered list.
   */
  method Run(allRows: seq<Row>, perm: seq<nat>) returns (page: Page)
    requires IsPermutation(perm, |FilterValid(allRows)|)
    ensures page.ErrorPage? <==> forall r :: r in allRows ==> !IsValidMenu(r)
    ensures page.MenuPage? ==> page.blocks == RenderBlocks(Selection(FilterValid(allRows), perm))
    ensures page.MenuPage? ==> |page.blocks| == Min(PickCount, |FilterValid(allRows)|) >= 1
  {
    var valid := FilterValid(allRows);
    FilterEmptyIff(allRows, IsValidMenu);
    if valid == [] {
      return ErrorPage;
    }
    var menus := new Row[|valid|](i requires 0 <= i < |valid| => valid[i]);
    assert menus[..] == valid;
    var selected := SortAndSlice(menus, perm);
    page := MenuPage(RenderBlocks(selected));
  }
}

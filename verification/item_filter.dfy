/** The publication/news filter: a row of filter buttons, each with a `data-filter`
    key, and the page's filterable items, those carrying `data-type` or
    `data-category`. Attributes a node lacks are `None`. */
module ItemFilter {
  import opened Options

  datatype Button = Button(filter: Option<string>, active: bool)

  /** The inline `display` style of an item: never set, `block` or `none`. */
  datatype Display = Unset | Block | Hidden

  /** A node of the page with its `data-type` and `data-category` attributes. */
  datatype Item = Item(dataType: Option<string>, category: Option<string>, display: Display)

  datatype Page = Page(buttons: seq<Button>, items: seq<Item>)

  /** The node is matched by `[data-type], [data-category]`. */
  predicate Filterable(e: Item) {
    e.dataType.Some? || e.category.Some?
  }

  /** `itemType || itemCategory`: the type when present and non-empty, otherwise
      the category (which may be absent). */
  function Key(e: Item): (r: Option<string>)
    ensures r == e.category || (r == e.dataType && r != Some(""))
    ensures e.dataType.Some? && e.dataType.value != "" ==> r == e.dataType
    ensures !(e.dataType.Some? && e.dataType.value != "") ==> r == e.category
  {
    if e.dataType.Some? && e.dataType.value != "" then e.dataType else e.category
  }

  /** The item is shown under filter key `f`. */
  predicate Selected(f: Option<string>, e: Item) {
    f == Some("all") || Key(e) == f
  }

  /** Removes the `active` mark from every button. */
  function DeactivateAll(bs: seq<Button>): (r: seq<Button>)
    ensures |r| == |bs|
    ensures forall i :: 0 <= i < |bs| ==> !r[i].active && r[i].filter == bs[i].filter
  {
    if bs == [] then [] else [bs[0].(active := false)] + DeactivateAll(bs[1..])
  }

  /** Shows the selected filterable items, hides the other filterable ones and
      leaves every other node alone. */
  function ApplyFilter(items: seq<Item>, f: Option<string>): (r: seq<Item>)
    ensures |r| == |items|
    ensures forall i :: 0 <= i < |items| ==>
      r[i].dataType == items[i].dataType && r[i].category == items[i].category
    ensures forall i :: 0 <= i < |items| && Filterable(items[i]) ==>
      (r[i].display == Block <==> Selected(f, items[i])) && r[i].display != Unset
    ensures forall i :: 0 <= i < |items| && !Filterable(items[i]) ==> r[i] == items[i]
  {
    if items == [] then []
    else
      var e := items[0];
      var e' := if !Filterable(e) then e
                else if Selected(f, e) then e.(display := Block)
                else e.(display := Hidden);
      [e'] + ApplyFilter(items[1..], f)
  }

  /** A click on button `k`: it becomes the only active button, and the items are
      filtered by its key. */
  function Click(p: Page, k: int): (r: Page)
    requires 0 <= k < |p.buttons|
    ensures |r.buttons| == |p.buttons| && |r.items| == |p.items|
    ensures forall i :: 0 <= i < |p.buttons| ==>
      (r.buttons[i].active <==> i == k) && r.buttons[i].filter == p.buttons[i].filter
    ensures forall i :: 0 <= i < |p.items| ==>
      r.items[i].dataType == p.items[i].dataType && r.items[i].category == p.items[i].category
    ensures forall i :: 0 <= i < |p.items| && Filterable(p.items[i]) ==>
      (r.items[i].display == Block <==> Selected(p.buttons[k].filter, p.items[i]))
    ensures forall i :: 0 <= i < |p.items| && Filterable(p.items[i]) ==>
      (r.items[i].display == Hidden <==> !Selected(p.buttons[k].filter, p.items[i]))
    ensures forall i :: 0 <= i < |p.items| && !Filterable(p.items[i]) ==> r.items[i] == p.items[i]
  {
    var bs := DeactivateAll(p.buttons);
    Page(bs[k := bs[k].(active := true)], ApplyFilter(p.items, p.buttons[k].filter))
  }

  /** The page after a click depends only on the button clicked, not on any
      earlier click: in particular a click repeated is idempotent. */
  lemma LastClickWins(p: Page, j: int, k: int)
    requires 0 <= j < |p.buttons| && 0 <= k < |p.buttons|
    ensures Click(Click(p, j), k) == Click(p, k)
  {
    var q := Click(p, j);
    assert DeactivateAll(q.buttons) == DeactivateAll(p.buttons);
    RefilterOverwrites(p.items, p.buttons[j].filter, p.buttons[k].filter);
  }

  /** Filtering again with `g` erases every trace of an earlier filter `f`. */
  lemma {:induction false} RefilterOverwrites(items: seq<Item>, f: Option<string>, g: Option<string>)
    ensures ApplyFilter(ApplyFilter(items, f), g) == ApplyFilter(items, g)
  {
    if items != [] {
      RefilterOverwrites(items[1..], f, g);
      assert ApplyFilter(items, f)[1..] == ApplyFilter(items[1..], f);
    }
  }

  /** Runs a sequence of clicks (indices of the buttons clicked). */
  function Clicks(p: Page, ks: seq<int>): (r: Page)
    requires forall n :: 0 <= n < |ks| ==> 0 <= ks[n] < |p.buttons|
    ensures |r.buttons| == |p.buttons| && |r.items| == |p.items|
    decreases |ks|
  {
    if ks == [] then p
    else Clicks(Click(p, ks[0]), ks[1..])
  }

  /** After any non-empty series of clicks the page is what the last click alone
      makes of the initial page. */
  lemma {:induction false} ClicksLastWins(p: Page, ks: seq<int>)
    requires ks != []
    requires forall n :: 0 <= n < |ks| ==> 0 <= ks[n] < |p.buttons|
    ensures Clicks(p, ks) == Click(p, ks[|ks| - 1])
    decreases |ks|
  {
    if |ks| == 1 {
      assert Clicks(p, ks) == Clicks(Click(p, ks[0]), []);
    } else {
      var q := Click(p, ks[0]);
      ClicksLastWins(q, ks[1..]);
      LastClickWins(p, ks[0], ks[|ks| - 1]);
    }
  }

  /** The wildcard key "all" shows every filterable item. */
  lemma AllShowsEverything(p: Page, k: int)
    requires 0 <= k < |p.buttons| && p.buttons[k].filter == Some("all")
    ensures forall i :: 0 <= i < |p.items| && Filterable(p.items[i]) ==> Click(p, k).items[i].display == Block
  {
  }

  /** Any other key shows exactly the filterable items whose key equals it. */
  lemma KeyShowsExactlyMatching(p: Page, k: int, i: int)
    requires 0 <= k < |p.buttons| && p.buttons[k].filter != Some("all")
    requires 0 <= i < |p.items| && Filterable(p.items[i])
    ensures Click(p, k).items[i].display == Block <==> Key(p.items[i]) == p.buttons[k].filter
    ensures Click(p, k).items[i].display == Hidden <==> Key(p.items[i]) != p.buttons[k].filter
  {
  }
}

/** The news board: each row names a detail panel by id (`data-target`); a click
    on a row closes every open `.board-detail` and opens the row's panel unless
    it was the one open. The state is the set of ids of elements carrying the
    `open` class. */
module NewsBoard {

  type Id = string

  /** The ids present in the document, and those of them that are `.board-detail`
      panels (the only elements a click closes). */
  datatype Page = Page(ids: set<Id>, panels: set<Id>)

  /** A click on a row whose `data-target` is `target`. */
  function RowClick(page: Page, open: set<Id>, target: Id): (r: set<Id>)
    ensures target !in page.ids ==> r == open
    ensures target in page.ids ==> r * page.panels <= {target}
    ensures target in page.ids ==> (target in r <==> target !in open || target !in page.panels)
    ensures forall x :: x !in page.panels && x != target ==> (x in r <==> x in open)
  {
    if target !in page.ids then open
    else
      var wasOpen := target in open;
      var closed := open - page.panels;
      if wasOpen then closed else closed + {target}
  }

  /** At most one panel is open. */
  predicate AtMostOneOpen(page: Page, open: set<Id>) {
    forall a, b :: a in open * page.panels && b in open * page.panels ==> a == b
  }

  /** For a row whose target is a panel: a closed panel becomes the only open
      one, an open panel is closed with nothing reopened. */
  lemma PanelClick(page: Page, open: set<Id>, t: Id)
    requires t in page.ids && t in page.panels
    ensures RowClick(page, open, t) * page.panels == (if t in open then {} else {t})
  {
  }

  /** Runs a sequence of row clicks. */
  function Run(page: Page, open: set<Id>, clicks: seq<Id>): (r: set<Id>)
    decreases |clicks|
  {
    if clicks == [] then open
    else Run(page, RowClick(page, open, clicks[0]), clicks[1..])
  }

  /** Every click keeps at most one panel open, whatever the targets. */
  lemma {:induction false} RunKeepsAtMostOneOpen(page: Page, open: set<Id>, clicks: seq<Id>)
    requires AtMostOneOpen(page, open)
    ensures AtMostOneOpen(page, Run(page, open, clicks))
    decreases |clicks|
  {
    if clicks != [] {
      var next := RowClick(page, open, clicks[0]);
      assert AtMostOneOpen(page, next);
      RunKeepsAtMostOneOpen(page, next, clicks[1..]);
    }
  }

  /** A click on an existing target leaves at most one panel open, even if more
      were open before. */
  lemma ClickLeavesAtMostOneOpen(page: Page, open: set<Id>, target: Id)
    requires target in page.ids
    ensures AtMostOneOpen(page, RowClick(page, open, target))
  {
    var r := RowClick(page, open, target);
    assert r * page.panels <= {target};
  }

  /** Clicking the same panel's row twice, starting with it closed, leaves no
      panel open. */
  lemma ClickTwiceClosesAll(page: Page, open: set<Id>, t: Id)
    requires t in page.ids && t in page.panels && t !in open
    ensures Run(page, open, [t, t]) * page.panels == {}
  {
    var once := RowClick(page, open, t);
    assert Run(page, open, [t, t]) == Run(page, RowClick(page, once, t), []);
  }
}

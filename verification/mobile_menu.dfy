/** The mobile navigation menu: the menu button and the navigation panel each
    carry an `active` mark. A button click toggles both marks; a click on any
    link inside the panel clears both. An element missing from the header is
    `None`. */
module MobileMenu {
  import opened Options

  datatype Menu = Menu(button: Option<bool>, panel: Option<bool>)

  datatype Event = ButtonClick | LinkClick

  /** The two marks exist and agree. */
  predicate Synced(m: Menu) {
    m.button.Some? && m.panel == m.button
  }

  /** The menu is open. */
  predicate IsOpen(m: Menu) {
    Synced(m) && m.button.value
  }

  function Flip(b: Option<bool>): Option<bool> {
    if b.None? then None else Some(!b.value)
  }

  /** One event. Without a button no listener is attached. Without a panel the
      button handler toggles the button's mark and then fails on the missing
      panel, and no link listener exists. */
  function Step(m: Menu, e: Event): (r: Menu)
    ensures m.button.None? ==> r == m
    ensures e == LinkClick && m.button.Some? && m.panel.Some? ==> r == Menu(Some(false), Some(false))
    ensures e == LinkClick && m.panel.None? ==> r == m
    ensures e == ButtonClick && m.button.Some? ==> r.button == Some(!m.button.value)
    ensures e == ButtonClick && m.button.Some? && m.panel.Some? ==> r.panel == Some(!m.panel.value)
    ensures e == ButtonClick && m.panel.None? ==> r.panel.None?
    ensures e == ButtonClick && Synced(m) ==> Synced(r) && (IsOpen(r) <==> !IsOpen(m))
  {
    if m.button.None? then m
    else
      match e
      case ButtonClick => Menu(Flip(m.button), Flip(m.panel))
      case LinkClick => if m.panel.None? then m else Menu(Some(false), Some(false))
  }

  /** Runs a sequence of events. */
  function Run(m: Menu, es: seq<Event>): (r: Menu)
    decreases |es|
  {
    if es == [] then m else Run(Step(m, es[0]), es[1..])
  }

  /** Marks that start equal stay equal under any sequence of events. */
  lemma {:induction false} RunKeepsSynced(m: Menu, es: seq<Event>)
    requires Synced(m)
    ensures Synced(Run(m, es))
    decreases |es|
  {
    if es != [] {
      RunKeepsSynced(Step(m, es[0]), es[1..]);
    }
  }

  /** Two button clicks restore any state. */
  lemma ToggleTwiceRestores(m: Menu)
    ensures Run(m, [ButtonClick, ButtonClick]) == m
  {
    assert Run(m, [ButtonClick, ButtonClick]) == Run(Step(Step(m, ButtonClick), ButtonClick), []);
  }

  /** After any events that end with a link click, the menu is closed, whatever
      the marks were before. */
  lemma {:induction false} EndsWithLinkClosed(m: Menu, es: seq<Event>)
    requires m.button.Some? && m.panel.Some?
    requires es != [] && es[|es| - 1] == LinkClick
    ensures Run(m, es) == Menu(Some(false), Some(false))
    decreases |es|
  {
    if |es| == 1 {
      assert Run(m, es) == Run(Step(m, LinkClick), []);
    } else {
      EndsWithLinkClosed(Step(m, es[0]), es[1..]);
    }
  }
}

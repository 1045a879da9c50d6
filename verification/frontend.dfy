/**
  The front-end disclosure behaviour (src/frontend.js): every rendered badge
  wrapper gets a click handler on its closed section that flips the inline
  `display` of its own open section, and only that.
 */
module Frontend {

  const DisplayNone := "none"
  const DisplayBlock := "block"

  /** The handler's new inline display, as written: `'none'` becomes
      `'block'`, anything else (the unset `''` included) becomes `'none'`. */
  function ToggleDisplay(display: string): (r: string)
    ensures r == DisplayNone || r == DisplayBlock
    ensures r == DisplayBlock <==> display == DisplayNone
  {
    if DisplayNone == display then DisplayBlock else DisplayNone
  }

  /** Whether the open section is visible: the plugin's stylesheet hides it
      while no inline display is set. */
  predicate Shown(display: string) {
    display != "" && display != DisplayNone
  }

  /** As written, a click changes the visibility on every click but the
      first: from the unset display it writes `'none'`, which keeps the
      section hidden. */
  lemma ToggleDisplayFlips(display: string)
    ensures Shown(ToggleDisplay(display)) == !Shown(display) <==> display != ""
    ensures !Shown("") && !Shown(ToggleDisplay(""))
  {
  }

  /** The handler is documented as toggling the display: this toggle hides
      a visible section and shows a hidden one, the unset display counting as
      hidden. */
  function ToggleVisibility(display: string): (r: string)
    ensures r == DisplayNone || r == DisplayBlock
    ensures Shown(r) == !Shown(display)
  {
    if Shown(display) then DisplayNone else DisplayBlock
  }

  /** The click event; its default action is suppressed by every handler. */
  datatype ClickEvent = ClickEvent(defaultPrevented: bool)

  /** The page: the inline display of each wrapper's open section, in
      document order. `step` is the handler's display update. */
  type Page = seq<string>

  /** A click on wrapper `i`'s closed section. */
  function OnClick(step: string -> string, page: Page, i: nat, e: ClickEvent): (r: (Page, ClickEvent))
    requires i < |page|
    ensures r.1.defaultPrevented
    ensures |r.0| == |page|
    ensures r.0[i] == step(page[i])
    ensures forall j | 0 <= j < |page| && j != i :: r.0[j] == page[j]
  {
    (page[i := step(page[i])], ClickEvent(true))
  }

  /** `n` applications of `step` to `display`. */
  function Iterate(step: string -> string, display: string, n: nat): string {
    if n == 0 then display else step(Iterate(step, display, n - 1))
  }

  /** Appending a click adds one to its wrapper's count and to no other. */
  lemma MultisetSnoc(clicks: seq<nat>, last: nat)
    ensures forall j :: multiset(clicks + [last])[j] == multiset(clicks)[j] + (if j == last then 1 else 0)
  {
    assert multiset(clicks + [last]) == multiset(clicks) + multiset{last};
  }

  /** The page after a run of clicks, each naming the wrapper clicked: each
      wrapper's display has been stepped once per click on it, whatever the
      clicks on the others. */
  function Clicks(step: string -> string, page: Page, clicks: seq<nat>): (r: Page)
    requires forall k | 0 <= k < |clicks| :: clicks[k] < |page|
    ensures |r| == |page|
    ensures forall j | 0 <= j < |page| :: r[j] == Iterate(step, page[j], multiset(clicks)[j])
    decreases |clicks|
  {
    if |clicks| == 0 then page
    else
      var init := clicks[..|clicks| - 1];
      var last := clicks[|clicks| - 1];
      assert clicks == init + [last];
      MultisetSnoc(init, last);
      var prev := Clicks(step, page, init);
      var r := OnClick(step, prev, last, ClickEvent(false)).0;
      assert r[last] == Iterate(step, page[last], multiset(init)[last] + 1);
      r
  }

  /** With the handler as written, the display after one or more clicks is
      always `'none'` or `'block'`, and successive clicks alternate. */
  lemma AlternatesAfterFirstClick(display: string, n: nat)
    requires n >= 1
    ensures Iterate(ToggleDisplay, display, n) in {DisplayNone, DisplayBlock}
    ensures Iterate(ToggleDisplay, display, n + 1) != Iterate(ToggleDisplay, display, n)
    ensures Iterate(ToggleDisplay, display, n + 2) == Iterate(ToggleDisplay, display, n)
  {
  }

  /** From the unset display, odd click counts leave `'none'` and even ones
      `'block'`: the first click writes `'none'`. */
  lemma {:induction false} FromUnset(n: nat)
    requires n >= 1
    ensures Iterate(ToggleDisplay, "", n) == if n % 2 == 1 then DisplayNone else DisplayBlock
  {
    if n > 1 {
      FromUnset(n - 1);
    }
  }

  /** With the corrected toggle, the section is visible after exactly the odd
      click counts, starting hidden. */
  lemma {:induction false} CorrectedFromUnset(n: nat)
    ensures Shown(Iterate(ToggleVisibility, "", n)) <==> n % 2 == 1
  {
    if n > 0 {
      CorrectedFromUnset(n - 1);
    }
  }
}

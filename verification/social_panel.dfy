/**
 The floating social-links panel: one boolean, open or closed, starting
 closed. A click on the toggle button flips it. Every click anywhere in the
 document then reaches the document's own handler, which closes the panel
 when the click landed outside the panel container. The toggle's handler
 runs first, since the click reaches the button before it bubbles up to
 the document.
 */
module SocialPanel {

  /** Where a click landed: on the toggle button, and/or anywhere inside
      the panel container. */
  datatype Click = Click(onToggle: bool, insidePanel: bool)

  /** Assumed placement: the toggle button sits inside the panel container
      (the page markup is not modelled). */
  predicate Contained(c: Click) {
    c.onToggle ==> c.insidePanel
  }

  function ToggleHandler(isOpen: bool): (r: bool)
    ensures r != isOpen
  {
    !isOpen
  }

  /** The document-level handler: a click outside the container closes an
      open panel and leaves everything else as it was. */
  function OutsideHandler(isOpen: bool, insidePanel: bool): (r: bool)
    ensures !insidePanel ==> !r
    ensures insidePanel ==> r == isOpen
  {
    if !insidePanel && isOpen then false else isOpen
  }

  /** A click delivered to both handlers in bubbling order. */
  function Dispatch(isOpen: bool, c: Click): (r: bool)
    ensures Contained(c) && c.onToggle ==> r == !isOpen
    ensures !c.insidePanel ==> !r
    ensures !c.onToggle && c.insidePanel ==> r == isOpen
  {
    OutsideHandler(if c.onToggle then ToggleHandler(isOpen) else isOpen, c.insidePanel)
  }

  const ToggleClick: Click := Click(true, true)

  /** Two toggle clicks in a row restore the original state. */
  lemma ToggleTwiceRestores(isOpen: bool)
    ensures Dispatch(Dispatch(isOpen, ToggleClick), ToggleClick) == isOpen
  {
  }

  /** Were the button placed outside the container, the document handler
      would undo its toggle at once and the panel could never stay open. */
  lemma UncontainedToggleCloses(isOpen: bool, c: Click)
    requires c.onToggle && !c.insidePanel
    ensures !Dispatch(isOpen, c)
  {
  }

  /** The state after a sequence of clicks, starting from `isOpen`. */
  function Run(isOpen: bool, clicks: seq<Click>): bool {
    if clicks == [] then isOpen
    else Dispatch(Run(isOpen, clicks[..|clicks| - 1]), clicks[|clicks| - 1])
  }

  function ToggleCount(clicks: seq<Click>): nat {
    if clicks == [] then 0
    else ToggleCount(clicks[..|clicks| - 1]) + (if clicks[|clicks| - 1].onToggle then 1 else 0)
  }

  predicate HasOutside(clicks: seq<Click>) {
    exists k | 0 <= k < |clicks| :: !clicks[k].insidePanel
  }

  /** The clicks after the last one that landed outside the container (all
      of them when none did). */
  function SinceLastOutside(clicks: seq<Click>): (r: seq<Click>)
    ensures |r| <= |clicks|
  {
    if clicks == [] then []
    else if !clicks[|clicks| - 1].insidePanel then []
    else SinceLastOutside(clicks[..|clicks| - 1]) + [clicks[|clicks| - 1]]
  }

  /** The clicks after the last outside click are a suffix of the clicks,
      all inside the container, preceded by an outside click if there was
      one at all. */
  lemma {:induction false} SinceLastOutsideShape(clicks: seq<Click>)
    ensures SinceLastOutside(clicks) == clicks[|clicks| - |SinceLastOutside(clicks)|..]
    ensures forall k | 0 <= k < |SinceLastOutside(clicks)| :: SinceLastOutside(clicks)[k].insidePanel
    ensures HasOutside(clicks) ==> !clicks[|clicks| - |SinceLastOutside(clicks)| - 1].insidePanel
    ensures !HasOutside(clicks) ==> SinceLastOutside(clicks) == clicks
  {
    if clicks != [] {
      var init := clicks[..|clicks| - 1];
      var last := clicks[|clicks| - 1];
      assert clicks == init + [last];
      SinceLastOutsideShape(init);
      HasOutsideSnoc(init, last);
      if last.insidePanel {
        var r := SinceLastOutside(init);
        assert SinceLastOutside(clicks) == r + [last];
        assert clicks[|clicks| - |r| - 1..] == init[|init| - |r|..] + [last];
        if HasOutside(clicks) {
          assert clicks[|clicks| - |r| - 2] == init[|init| - |r| - 1];
        }
      } else {
        assert HasOutside(clicks);
      }
    }
  }

  lemma HasOutsideSnoc(init: seq<Click>, last: Click)
    ensures HasOutside(init + [last]) <==> HasOutside(init) || !last.insidePanel
  {
    var clicks := init + [last];
    if HasOutside(clicks) && last.insidePanel {
      var k :| 0 <= k < |clicks| && !clicks[k].insidePanel;
      assert k < |init| && !init[k].insidePanel;
    }
    if HasOutside(init) {
      var k :| 0 <= k < |init| && !init[k].insidePanel;
      assert !clicks[k].insidePanel;
    }
    if !last.insidePanel {
      assert !clicks[|init|].insidePanel;
    }
  }

  lemma SnocFacts(isOpen: bool, init: seq<Click>, last: Click)
    ensures Run(isOpen, init + [last]) == Dispatch(Run(isOpen, init), last)
    ensures ToggleCount(init + [last]) == ToggleCount(init) + (if last.onToggle then 1 else 0)
    ensures SinceLastOutside(init + [last])
            == (if last.insidePanel then SinceLastOutside(init) + [last] else [])
  {
    var c := init + [last];
    assert c[..|c| - 1] == init && c[|c| - 1] == last;
  }

  /** The state the click history predicts: closed after an outside click,
      flipped once for each toggle click since. */
  function Predicted(isOpen: bool, clicks: seq<Click>): bool {
    (if HasOutside(clicks) then false else isOpen)
    != (ToggleCount(SinceLastOutside(clicks)) % 2 == 1)
  }

  lemma PredictedAfterOutside(isOpen: bool, init: seq<Click>, last: Click)
    requires !last.insidePanel
    ensures Run(isOpen, init + [last]) == Predicted(isOpen, init + [last])
  {
    HasOutsideSnoc(init, last);
    SnocFacts(isOpen, init, last);
    assert ToggleCount([]) == 0;
  }

  lemma ParityStep(t: nat, flip: bool)
    ensures ((t + (if flip then 1 else 0)) % 2 == 1) == ((t % 2 == 1) != flip)
  {
  }

  lemma PredictedAfterInside(isOpen: bool, init: seq<Click>, last: Click)
    requires Contained(last) && last.insidePanel
    requires Run(isOpen, init) == Predicted(isOpen, init)
    ensures Run(isOpen, init + [last]) == Predicted(isOpen, init + [last])
  {
    HasOutsideSnoc(init, last);
    SnocFacts(isOpen, init, last);
    var since := SinceLastOutside(init);
    SnocFacts(isOpen, since, last);
    ParityStep(ToggleCount(since), last.onToggle);
  }

  /** With the button inside the container, the panel is open exactly when
      an odd number of toggle clicks followed the last outside click, or,
      with no outside click, when that parity flips the initial state. */
  lemma {:induction false} OpenIffOddTogglesSinceOutside(isOpen: bool, clicks: seq<Click>)
    requires forall k | 0 <= k < |clicks| :: Contained(clicks[k])
    ensures Run(isOpen, clicks) == Predicted(isOpen, clicks)
  {
    if clicks != [] {
      var init := clicks[..|clicks| - 1];
      var last := clicks[|clicks| - 1];
      assert clicks == init + [last];
      assert forall k | 0 <= k < |init| :: init[k] == clicks[k];
      OpenIffOddTogglesSinceOutside(isOpen, init);
      if last.insidePanel {
        PredictedAfterInside(isOpen, init, last);
      } else {
        PredictedAfterOutside(isOpen, init, last);
      }
    }
  }
}

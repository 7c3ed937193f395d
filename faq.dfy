/** The FAQ accordion (initFaqAccordion in script.js).

    The page holds a fixed list of `.lp-faq-item` elements. An item may contain a
    `.lp-faq-question` control; only such items get a click listener. A click first
    closes every item of the list (removing `active` and writing aria-expanded="false"
    on each control that exists) and then, only if the clicked item was closed before,
    opens it again (adding `active` and writing aria-expanded="true"). The list is
    modelled as an array updated in place, as the handler's loop does. */
module FaqAccordion {

  datatype Option<T> = None | Some(value: T)

  /** A question control and its `aria-expanded` attribute (None while the markup has none). */
  datatype Question = Question(ariaExpanded: Option<string>)

  /** One FAQ item: its `active` class and its question control, if it has one. */
  datatype FaqItem = FaqItem(active: bool, question: Option<Question>)

  /** An item after the closing pass: not active, and its control, if any, says "false". */
  function Collapsed(item: FaqItem): FaqItem
  {
    FaqItem(false, if item.question.Some? then Some(Question(Some("false"))) else None)
  }

  /** The clicked item after it is opened: active, and its control says "true". */
  const Expanded: FaqItem := FaqItem(true, Some(Question(Some("true"))))

  /** The closing pass over the whole list. */
  function CollapseAll(s: seq<FaqItem>): seq<FaqItem>
  {
    seq(|s|, i requires 0 <= i < |s| => Collapsed(s[i]))
  }

  /** The list after a click on the question of item `k`. An item without a question
      control has no listener, so a click there changes nothing. */
  function AfterClick(s: seq<FaqItem>, k: nat): seq<FaqItem>
    requires k < |s|
  {
    if s[k].question.None? then s
    else if s[k].active then CollapseAll(s)
    else CollapseAll(s)[k := Expanded]
  }

  /** The click handler, run in place on the page's list of items. */
  method Click(items: array<FaqItem>, k: nat)
    requires k < items.Length
    modifies items
    ensures items[..] == AfterClick(old(items[..]), k)
  {
    if items[k].question.None? {
      return;
    }
    var isActive := items[k].active;
    var i := 0;
    while i < items.Length
      invariant 0 <= i <= items.Length
      invariant forall j :: 0 <= j < i ==> items[j] == Collapsed(old(items[j]))
      invariant forall j :: i <= j < items.Length ==> items[j] == old(items[j])
    {
      items[i] := Collapsed(items[i]);
      i := i + 1;
    }
    assert items[..] == CollapseAll(old(items[..]));
    if !isActive {
      items[k] := Expanded;
    }
  }

  /** The indices of the active items. */
  function ActiveItems(s: seq<FaqItem>): set<nat>
  {
    set i: nat | i < |s| && s[i].active
  }

  /** At most one item is active. */
  ghost predicate Exclusive(s: seq<FaqItem>)
  {
    forall i, j :: 0 <= i < |s| && 0 <= j < |s| && s[i].active && s[j].active ==> i == j
  }

  /** Every item with a question control announces its own state in `aria-expanded`. */
  ghost predicate AriaInSync(s: seq<FaqItem>)
  {
    forall i :: 0 <= i < |s| && s[i].question.Some? ==>
      s[i].question.value.ariaExpanded == Some(if s[i].active then "true" else "false")
  }

  /** The two lists have the same items with and without a question control. */
  ghost predicate SameControls(s: seq<FaqItem>, t: seq<FaqItem>)
  {
    |s| == |t| && forall i :: 0 <= i < |s| ==> (s[i].question.Some? <==> t[i].question.Some?)
  }

  /** A click on an active item leaves no item active; a click on an inactive item leaves
      that item and no other active. Items without a control are closed too. */
  lemma ClickActiveItems(s: seq<FaqItem>, k: nat)
    requires k < |s| && s[k].question.Some?
    ensures ActiveItems(AfterClick(s, k)) == if s[k].active then {} else {k}
  {
  }

  /** After a click every control agrees with its item, and no control appears or disappears;
      a click on an item without a control changes nothing at all. */
  lemma ClickSyncsAria(s: seq<FaqItem>, k: nat)
    requires k < |s|
    ensures SameControls(s, AfterClick(s, k))
    ensures s[k].question.Some? ==> AriaInSync(AfterClick(s, k))
    ensures s[k].question.None? ==> AfterClick(s, k) == s
  {
  }

  /** Every click index is an item of the list. */
  ghost predicate ValidClicks(s: seq<FaqItem>, ks: seq<nat>)
  {
    forall j :: 0 <= j < |ks| ==> ks[j] < |s|
  }

  /** The list after the clicks of `ks`, in order. */
  function AfterClicks(s: seq<FaqItem>, ks: seq<nat>): (r: seq<FaqItem>)
    requires ValidClicks(s, ks)
    ensures |r| == |s|
    decreases |ks|
  {
    if ks == [] then s
    else
      var prev := AfterClicks(s, ks[..|ks| - 1]);
      AfterClick(prev, ks[|ks| - 1])
  }

  /** Clicks never add or remove question controls. */
  lemma {:induction false} ClicksKeepControls(s: seq<FaqItem>, ks: seq<nat>)
    requires ValidClicks(s, ks)
    ensures SameControls(s, AfterClicks(s, ks))
    decreases |ks|
  {
    if ks != [] {
      var prefix := ks[..|ks| - 1];
      ClicksKeepControls(s, prefix);
      ClickSyncsAria(AfterClicks(s, prefix), ks[|ks| - 1]);
    }
  }

  /** Once any click has reached an item with a question control, the list stays settled:
      at most one item is active and every control reports its item's state, whatever
      the markup started with. */
  lemma {:induction false} ClicksSettle(s: seq<FaqItem>, ks: seq<nat>)
    requires ValidClicks(s, ks)
    requires exists j :: 0 <= j < |ks| && s[ks[j]].question.Some?
    ensures Exclusive(AfterClicks(s, ks)) && AriaInSync(AfterClicks(s, ks))
    decreases |ks|
  {
    var prefix := ks[..|ks| - 1];
    var k := ks[|ks| - 1];
    var prev := AfterClicks(s, prefix);
    ClicksKeepControls(s, prefix);
    ClickSyncsAria(prev, k);
    if prev[k].question.Some? {
      ClickActiveItems(prev, k);
      var r := AfterClick(prev, k);
      forall i, j | 0 <= i < |r| && 0 <= j < |r| && r[i].active && r[j].active
        ensures i == j
      {
        assert i in ActiveItems(r) && j in ActiveItems(r);
      }
    } else {
      var j :| 0 <= j < |ks| && s[ks[j]].question.Some?;
      assert j < |prefix| && prefix[j] == ks[j];
      ClicksSettle(s, prefix);
    }
  }
}

/** The FAQ accordion (src/components/Faq.jsx:9-71): one optional index,
    `activeIndex`, names the open card; a click on a card runs
    `setActiveIndex(isActive ? null : index)`. */
module Faq {
  import opened Options

  /** `index === activeIndex`: the card at `index` is open. */
  predicate IsActive(activeIndex: Option<nat>, index: nat) {
    activeIndex == Some(index)
  }

  /** The index after a click on card `index`. */
  function Toggled(activeIndex: Option<nat>, index: nat): (r: Option<nat>)
    ensures forall j: nat :: IsActive(r, j) <==> j == index && !IsActive(activeIndex, index)
  {
    if IsActive(activeIndex, index) then None else Some(index)
  }

  /** The open cards among the first `count`. */
  function OpenCards(activeIndex: Option<nat>, count: nat): set<nat> {
    set j: nat | j < count && IsActive(activeIndex, j)
  }

  /** At most one card is open, whatever the index holds. */
  lemma AtMostOneOpen(activeIndex: Option<nat>, count: nat)
    ensures |OpenCards(activeIndex, count)| <= 1
    ensures activeIndex == None ==> OpenCards(activeIndex, count) == {}
  {
    var open := OpenCards(activeIndex, count);
    if activeIndex.Some? {
      assert open <= {activeIndex.value};
      SubsetCardinality(open, {activeIndex.value});
    } else {
      assert open == {};
    }
  }

  lemma {:induction false} SubsetCardinality(a: set<nat>, b: set<nat>)
    requires a <= b
    ensures |a| <= |b|
  {
    assert b == a + (b - a);
  }

  /** A click on a closed card opens it and closes every other card; a click
      on the open card leaves every card closed. */
  lemma ClickOpensOrCloses(activeIndex: Option<nat>, index: nat, count: nat)
    requires index < count
    ensures !IsActive(activeIndex, index) ==> OpenCards(Toggled(activeIndex, index), count) == {index}
    ensures IsActive(activeIndex, index) ==> OpenCards(Toggled(activeIndex, index), count) == {}
  {
  }

  /** Two clicks on the same card: from a state where it is closed, every
      card ends up closed; from one where it is open, it is open again. */
  lemma TwoClicks(activeIndex: Option<nat>, index: nat)
    ensures !IsActive(activeIndex, index) ==> Toggled(Toggled(activeIndex, index), index) == None
    ensures IsActive(activeIndex, index) ==> Toggled(Toggled(activeIndex, index), index) == activeIndex
  {
  }

  /** The `FAQ` component's state. */
  class Accordion {
    var activeIndex: Option<nat>

    /** `useState(null)`: every card starts closed. */
    constructor()
      ensures activeIndex == None
    {
      activeIndex := None;
    }

    /** Card `index` shows its answer exactly when it is the active one. */
    predicate ShowsAnswer(index: nat)
      reads this
    {
      IsActive(activeIndex, index)
    }

    /** A click on the button of card `index`. */
    method Click(index: nat)
      modifies this
      ensures activeIndex == Toggled(old(activeIndex), index)
      ensures ShowsAnswer(index) <==> !old(ShowsAnswer(index))
      ensures forall j: nat :: j != index ==> !ShowsAnswer(j)
    {
      var isActive := activeIndex == Some(index);
      activeIndex := if isActive then None else Some(index);
    }
  }
}

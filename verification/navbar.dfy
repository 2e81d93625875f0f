/** The navigation bar's state (src/components/Navbar.jsx:9-79, 155, 182):
    the scroll-spy that picks the active section while the page scrolls, the
    clicks on the links, and the mobile menu.

    The document is reduced to what the handlers read from it: the scroll
    offset, the height of the bar, and for each element id the element's
    `offsetTop` and the top of its bounding box in the viewport. */
module Navbar {
  import opened Options

  /** An entry of the link list: internal links name a section id ("" is the
      home link), external ones open another site. */
  datatype NavLink = NavLink(id: string, external: bool)

  /** The two measurements the handlers take of an element. */
  datatype Box = Box(offsetTop: int, viewportTop: int)

  /** An element found by `document.getElementById`; its `id` attribute is
      the id it was looked up by. */
  datatype Element = Element(id: string, box: Box)

  /** The window and the document as the handlers see them. `scrollY` is
      both `window.scrollY` and `window.pageYOffset`, which browsers keep
      equal. */
  datatype Page = Page(scrollY: int, navHeight: int, boxes: map<string, Box>)

  /** `document.getElementById(id)`: no element has the empty id. */
  function GetElementById(page: Page, id: string): (r: Option<Element>)
    ensures r.Some? <==> id != "" && id in page.boxes
    ensures r.Some? ==> r.value.id == id && r.value.box == page.boxes[id]
  {
    if id != "" && id in page.boxes then Some(Element(id, page.boxes[id])) else None
  }

  /** `window.scrollY > 50`: the bar gets its solid background. */
  predicate IsScrolled(scrollY: int) {
    scrollY > 50
  }

  // ---------------------------------------------------------------------
  // The scroll-spy

  /** `navLinks.filter((link) => !link.external)`: the internal links, in
      list order. */
  function InternalLinks(links: seq<NavLink>): (r: seq<NavLink>)
    ensures |r| <= |links|
    ensures links == [] ==> r == []
    ensures |links| == 1 ==> r == if links[0].external then [] else links
    ensures forall k :: 0 <= k < |r| ==> !r[k].external && r[k] in links
    ensures forall k :: 0 <= k < |links| && !links[k].external ==> links[k] in r
  {
    if links == [] then []
    else
      var rest := InternalLinks(links[1..]);
      assert forall k :: 1 <= k < |links| ==> links[k] == links[1..][k - 1];
      if links[0].external then rest else [links[0]] + rest
  }

  /** The filter keeps the internal links of each part of the list, in list
      order. With the empty and one-link cases of its own contract this
      determines it: every internal link is kept once, in place. */
  lemma {:induction false} InternalLinksAppend(a: seq<NavLink>, b: seq<NavLink>)
    ensures InternalLinks(a + b) == InternalLinks(a) + InternalLinks(b)
    decreases |a|
  {
    if a == [] {
      assert a + b == b;
    } else {
      assert (a + b)[1..] == a[1..] + b;
      InternalLinksAppend(a[1..], b);
    }
  }

  /** `.map((link) => document.getElementById(link.id))`: one entry per
      internal link, in list order; a found section carries that link's id. */
  function Sections(links: seq<NavLink>, page: Page): (r: seq<Option<Element>>)
    ensures |r| == |InternalLinks(links)|
    ensures forall k :: 0 <= k < |r| && r[k].Some? ==>
              r[k].value.id == InternalLinks(links)[k].id && r[k].value.id in page.boxes
  {
    var internal := InternalLinks(links);
    seq(|internal|, k requires 0 <= k < |internal| => GetElementById(page, internal[k].id))
  }

  /** A link added at the end of the list adds its section at the end when it
      is internal, and nothing when it is external. */
  lemma SectionsAppend(links: seq<NavLink>, l: NavLink, page: Page)
    ensures Sections(links + [l], page) ==
              Sections(links, page) + (if l.external then [] else [GetElementById(page, l.id)])
  {
    InternalLinksAppend(links, [l]);
  }

  /** The section exists and its top, less 300, is at or above the scroll
      offset. */
  predicate Reached(section: Option<Element>, scrollY: int) {
    section.Some? && scrollY >= section.value.box.offsetTop - 300
  }

  /** Section `k` is reached and no later one is. */
  ghost predicate IsLastReached(sections: seq<Option<Element>>, scrollY: int, k: int) {
    && 0 <= k < |sections|
    && Reached(sections[k], scrollY)
    && forall j :: k < j < |sections| ==> !Reached(sections[j], scrollY)
  }

  /** The id the scroll-spy settles on: that of the last reached section in
      list order (not the one lowest on the page), or "" when none is
      reached. */
  function LastReached(sections: seq<Option<Element>>, scrollY: int): (r: string)
    ensures (forall k :: 0 <= k < |sections| ==> !Reached(sections[k], scrollY)) ==> r == ""
    ensures (exists k :: 0 <= k < |sections| && Reached(sections[k], scrollY)) ==>
              exists k :: IsLastReached(sections, scrollY, k) && sections[k].value.id == r
  {
    if sections == [] then ""
    else
      var n := |sections| - 1;
      if Reached(sections[n], scrollY) then
        assert IsLastReached(sections, scrollY, n);
        sections[n].value.id
      else
        var r := LastReached(sections[..n], scrollY);
        assert forall k :: 0 <= k < n ==> sections[k] == sections[..n][k];
        assert (exists k :: 0 <= k < |sections| && Reached(sections[k], scrollY)) ==>
                 exists k :: IsLastReached(sections, scrollY, k) && sections[k].value.id == r
        by {
          if exists k :: 0 <= k < |sections| && Reached(sections[k], scrollY) {
            var k :| IsLastReached(sections[..n], scrollY, k) && sections[..n][k].value.id == r;
            assert IsLastReached(sections, scrollY, k);
          }
        }
        r
  }

  /** The loop of `handleScroll`: each existing section reached by the
      scroll offset overwrites the current id, so the last one wins. */
  method ScrollSpy(sections: seq<Option<Element>>, scrollY: int) returns (current: string)
    ensures current == LastReached(sections, scrollY)
  {
    current := "";
    var i := 0;
    while i < |sections|
      invariant 0 <= i <= |sections|
      invariant current == LastReached(sections[..i], scrollY)
    {
      var section := sections[i];
      if section.Some? {
        var sectionTop := section.value.box.offsetTop;
        if scrollY >= sectionTop - 300 {
          current := section.value.id;
        }
      }
      assert sections[..i + 1][..i] == sections[..i];
      i := i + 1;
    }
    assert sections[..i] == sections;
  }

  /** Link `i` of the list is internal, its section exists and is reached,
      and the section of no internal link after it is reached. */
  ghost predicate IsLastReachedLink(links: seq<NavLink>, page: Page, i: int) {
    && 0 <= i < |links|
    && !links[i].external
    && Reached(GetElementById(page, links[i].id), page.scrollY)
    && forall j :: i < j < |links| && !links[j].external ==>
         !Reached(GetElementById(page, links[j].id), page.scrollY)
  }

  /** One more link at the end of the list: the spy picks it when it is
      internal and its section is reached, and otherwise keeps its earlier
      pick. */
  lemma SpyStep(links: seq<NavLink>, l: NavLink, page: Page)
    ensures var x := GetElementById(page, l.id);
      LastReached(Sections(links + [l], page), page.scrollY) ==
        if !l.external && Reached(x, page.scrollY) then l.id
        else LastReached(Sections(links, page), page.scrollY)
  {
    var before, after := Sections(links, page), Sections(links + [l], page);
    var x := GetElementById(page, l.id);
    SectionsAppend(links, l, page);
    if !l.external {
      assert after == before + [x];
      LastReachedSnoc(before, x, page.scrollY);
      if Reached(x, page.scrollY) {
        assert x.value.id == l.id;
      }
    } else {
      assert after == before;
    }
  }

  /** The loop's last step: a reached section overwrites the pick. */
  lemma LastReachedSnoc(sections: seq<Option<Element>>, x: Option<Element>, scrollY: int)
    ensures LastReached(sections + [x], scrollY) ==
              if Reached(x, scrollY) then x.value.id else LastReached(sections, scrollY)
  {
    assert (sections + [x])[..|sections|] == sections;
  }

  /** No internal link of the list has a section that exists and is
      reached. */
  ghost predicate NoLinkReached(links: seq<NavLink>, page: Page) {
    forall i :: 0 <= i < |links| && !links[i].external ==>
      !Reached(GetElementById(page, links[i].id), page.scrollY)
  }

  /** The scroll-spy's rule stated over the link list itself: it picks the id
      of the last internal link, in list order, whose section exists and is
      reached, and "" exactly when there is none. */
  lemma {:induction false} SpiedSectionIsCandidate(links: seq<NavLink>, page: Page)
    ensures var r := LastReached(Sections(links, page), page.scrollY);
      && (r == "" <==> NoLinkReached(links, page))
      && (r != "" ==> exists i :: IsLastReachedLink(links, page, i) && links[i].id == r)
    decreases |links|
  {
    if links != [] {
      var n := |links| - 1;
      var init, l := links[..n], links[n];
      assert links == init + [l];
      SpiedSectionIsCandidate(init, page);
      SpyStep(init, l, page);
      if !l.external && Reached(GetElementById(page, l.id), page.scrollY) {
        LastLinkReached(init, l, page);
      } else {
        LastLinkNotReached(init, l, page, LastReached(Sections(init, page), page.scrollY));
      }
    }
  }

  /** The last link is internal and reached: it is the pick. */
  lemma LastLinkReached(init: seq<NavLink>, l: NavLink, page: Page)
    requires !l.external && Reached(GetElementById(page, l.id), page.scrollY)
    ensures !NoLinkReached(init + [l], page)
    ensures IsLastReachedLink(init + [l], page, |init|) && (init + [l])[|init|].id == l.id
    ensures l.id != ""
  {
    var links := init + [l];
    assert links[|init|] == l;
    assert IsLastReachedLink(links, page, |init|);
  }

  /** The last link is external or not reached: whatever held of the list
      without it holds of the list with it. */
  lemma LastLinkNotReached(init: seq<NavLink>, l: NavLink, page: Page, r: string)
    requires l.external || !Reached(GetElementById(page, l.id), page.scrollY)
    requires r == "" <==> NoLinkReached(init, page)
    requires r != "" ==> exists i :: IsLastReachedLink(init, page, i) && init[i].id == r
    ensures r == "" <==> NoLinkReached(init + [l], page)
    ensures r != "" ==> exists i :: IsLastReachedLink(init + [l], page, i) && (init + [l])[i].id == r
  {
    var links := init + [l];
    assert forall i :: 0 <= i < |init| ==> links[i] == init[i];
    assert links[|init|] == l;
    if r != "" {
      var i :| IsLastReachedLink(init, page, i) && init[i].id == r;
      assert IsLastReachedLink(links, page, i);
    }
  }

  /** List order decides, not position on the page: when a section listed
      later sits higher on the page, and both are reached, the later one is
      picked even though the other is the one being read. */
  lemma ListOrderWins()
    ensures var sections := [Some(Element("about", Box(1000, 0))),
                             Some(Element("work", Box(200, 0)))];
      LastReached(sections, 900) == "work"
  {
    var sections := [Some(Element("about", Box(1000, 0))),
                     Some(Element("work", Box(200, 0)))];
    assert Reached(sections[1], 900);
  }

  // ---------------------------------------------------------------------
  // The component

  class NavState {
    var active: string    // id of the highlighted link
    var toggle: bool      // the mobile menu is open
    var scrolled: bool

    constructor()
      ensures active == "" && !toggle && !scrolled
    {
      active := "";
      toggle := false;
      scrolled := false;
    }

    /** `handleScroll`, run on every scroll event and once on mount. */
    method HandleScroll(links: seq<NavLink>, page: Page)
      modifies this
      ensures scrolled == IsScrolled(page.scrollY)
      ensures var spied := LastReached(Sections(links, page), page.scrollY);
        && (spied != "" ==> active == spied)
        && (spied == "" && page.scrollY < 100 ==> active == "")
        && (spied == "" && page.scrollY >= 100 ==> active == old(active))
      ensures toggle == old(toggle)
    {
      scrolled := page.scrollY > 50;
      var currentSection := ScrollSpy(Sections(links, page), page.scrollY);
      if currentSection != "" {
        active := currentSection;
      } else if page.scrollY < 100 {
        active := "";
      }
    }

    /** `handleNavClick`: an external link is left to the browser; an
        internal one becomes active, closes the menu and returns where the
        window scrolls to: the top for the home link, the section's page
        position less the height of the bar for the others, nowhere when
        the section is missing. */
    method HandleNavClick(link: NavLink, page: Page) returns (scrollTo: Option<int>)
      modifies this
      ensures link.external ==> active == old(active) && toggle == old(toggle)
                                && scrollTo == None
      ensures !link.external ==> active == link.id && !toggle
      ensures !link.external && link.id == "" ==> scrollTo == Some(0)
      ensures !link.external && link.id != "" && link.id !in page.boxes ==> scrollTo == None
      ensures !link.external && link.id != "" && link.id in page.boxes ==>
                scrollTo == Some(page.boxes[link.id].viewportTop + page.scrollY - page.navHeight)
      ensures scrolled == old(scrolled)
    {
      scrollTo := None;
      if !link.external {
        active := link.id;
        toggle := false;
        if link.id == "" {
          scrollTo := Some(0);
        } else {
          var element := GetElementById(page, link.id);
          if element.Some? {
            var elementPosition := element.value.box.viewportTop + page.scrollY;
            scrollTo := Some(elementPosition - page.navHeight);
          }
        }
      }
    }

    /** The menu button flips the menu. */
    method ToggleMenu()
      modifies this
      ensures toggle == !old(toggle)
      ensures active == old(active) && scrolled == old(scrolled)
    {
      toggle := !toggle;
    }

    /** A mouse press anywhere in the document: one outside the menu and its
        button closes an open menu; any other changes nothing. */
    method MouseDown(insideMenuOrTrigger: bool)
      modifies this
      ensures toggle == (old(toggle) && insideMenuOrTrigger)
      ensures active == old(active) && scrolled == old(scrolled)
    {
      if toggle && !insideMenuOrTrigger {
        toggle := false;
      }
    }

    /** An external link in the mobile menu closes the menu. */
    method ExternalMenuClick()
      modifies this
      ensures !toggle
      ensures active == old(active) && scrolled == old(scrolled)
    {
      toggle := false;
    }
  }
}

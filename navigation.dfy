// What the page does on every scroll event: the navbar gets its "scrolled"
// look past 50 pixels, the back-to-top button shows past 500 pixels, and the
// navigation link of the section being read is marked active.
//
// The window's scroll offset and each section's offset from the top of the
// document are inputs; the class lists of the navbar, of the button and of
// each link are the state the page updates.

module Navigation {

  /** Scroll offsets, in pixels, past which the two effects switch on. */
  const NavbarThreshold := 50
  const BackToTopThreshold := 500

  /** How far above its top a section already counts as being read. */
  const SectionLead := 120

  /** The value of `getAttribute`: a string, or null when the attribute is absent. */
  datatype AttrValue = Str(s: string) | Null

  /** An attribute value inside a JavaScript template literal: null prints as "null". */
  function Render(v: AttrValue): string
  {
    match v
    case Str(s) => s
    case Null => "null"
  }

  /** A section of the page: its `id` attribute and its offset from the top of the document. */
  datatype Section = Section(id: AttrValue, offsetTop: int)

  /** A navigation link: its `href` attribute and whether it carries the class "active". */
  datatype Link = Link(href: AttrValue, active: bool)

  /** The navbar has the class "scrolled" past the first threshold. */
  predicate NavbarScrolled(scrollY: int)
  {
    scrollY > NavbarThreshold
  }

  /** The back-to-top button has the class "visible" past the second threshold. */
  predicate BackToTopVisible(scrollY: int)
  {
    scrollY > BackToTopThreshold
  }

  /**
   * Both tests are strict: at exactly 50 and 500 pixels nothing switches on,
   * one pixel further it does.
   */
  lemma ThresholdsAreStrict()
    ensures !NavbarScrolled(50) && NavbarScrolled(51)
    ensures !BackToTopVisible(500) && BackToTopVisible(501)
  {
  }

  /** Whenever the back-to-top button shows, the navbar is in its scrolled look. */
  lemma VisibleImpliesScrolled(scrollY: int)
    ensures BackToTopVisible(scrollY) ==> NavbarScrolled(scrollY)
    ensures NavbarScrolled(scrollY) && !BackToTopVisible(scrollY) <==> 50 < scrollY <= 500
  {
  }

  /** A section counts as reached once the window has scrolled to 120 pixels above it. */
  predicate Reached(section: Section, scrollY: int)
  {
    scrollY >= section.offsetTop - SectionLead
  }

  /**
   * The index of the last section, in document order, that has been
   * reached, or -1 when none has.
   */
  function LastReached(sections: seq<Section>, scrollY: int): (k: int)
    ensures -1 <= k < |sections|
    ensures k >= 0 ==> Reached(sections[k], scrollY)
    ensures forall j :: k < j < |sections| ==> !Reached(sections[j], scrollY)
    ensures k == -1 <==> forall j :: 0 <= j < |sections| ==> !Reached(sections[j], scrollY)
  {
    if |sections| == 0 then -1
    else if Reached(sections[|sections| - 1], scrollY) then |sections| - 1
    else LastReached(sections[..|sections| - 1], scrollY)
  }

  /** The id of the section being read: that of the last one reached, or "" when none is. */
  function CurrentId(sections: seq<Section>, scrollY: int): AttrValue
  {
    var k := LastReached(sections, scrollY);
    if k < 0 then Str("") else sections[k].id
  }

  /** The `href` a link must have to be the active one. */
  function Target(current: AttrValue): string
  {
    "#" + Render(current)
  }

  /**
   * Scrolling further down never moves the selection back up the page:
   * a section reached at one offset is still reached at any larger one.
   */
  lemma ScrollingDownNeverMovesBack(sections: seq<Section>, y1: int, y2: int)
    requires y1 <= y2
    ensures LastReached(sections, y1) <= LastReached(sections, y2)
  {
    var k := LastReached(sections, y1);
    if k >= 0 {
      assert Reached(sections[k], y2);
    }
  }

  /**
   * The first pass of the highlight: scan the sections in document order,
   * keeping the id of every section reached, so the last one wins.
   */
  method SelectCurrent(sections: seq<Section>, scrollY: int) returns (current: AttrValue)
    ensures current == CurrentId(sections, scrollY)
  {
    current := Str("");
    for i := 0 to |sections|
      invariant current == CurrentId(sections[..i], scrollY)
    {
      var top := sections[i].offsetTop - SectionLead;
      if scrollY >= top {
        current := sections[i].id;
      }
      assert sections[..i + 1][..i] == sections[..i];
    }
    assert sections[..|sections|] == sections;
  }

  /**
   * The second pass: every link loses the class "active", and gets it back
   * exactly when its `href` is "#" followed by the current id.
   */
  method MarkLinks(links: array<Link>, current: AttrValue)
    modifies links
    ensures forall i :: 0 <= i < links.Length ==> links[i].href == old(links[i].href)
    ensures forall i :: 0 <= i < links.Length ==>
      (links[i].active <==> links[i].href == Str(Target(current)))
  {
    for i := 0 to links.Length
      invariant forall j :: i <= j < links.Length ==> links[j] == old(links[j])
      invariant forall j :: 0 <= j < i ==> links[j].href == old(links[j].href)
      invariant forall j :: 0 <= j < i ==> (links[j].active <==> links[j].href == Str(Target(current)))
    {
      links[i] := links[i].(active := false);
      if links[i].href == Str("#" + Render(current)) {
        links[i] := links[i].(active := true);
      }
    }
  }

  /**
   * The parts of the page the scroll handler updates. The sections are not
   * kept: their offsets are read afresh on every scroll event, so each
   * handler call is given the sections as laid out at that moment.
   */
  class Page {
    var navbarScrolled: bool
    var backToTopVisible: bool
    const navLinks: array<Link>

    constructor (navLinks: array<Link>)
      ensures this.navLinks == navLinks
      ensures !navbarScrolled && !backToTopVisible
    {
      this.navLinks := navLinks;
      navbarScrolled, backToTopVisible := false, false;
    }

    /** Marks the link of the section being read, and only that link, active. */
    method HighlightActiveNav(scrollY: int, sections: seq<Section>)
      modifies navLinks
      ensures forall i :: 0 <= i < navLinks.Length ==> navLinks[i].href == old(navLinks[i].href)
      ensures forall i :: 0 <= i < navLinks.Length ==>
        (navLinks[i].active <==> navLinks[i].href == Str(Target(CurrentId(sections, scrollY))))
    {
      var current := SelectCurrent(sections, scrollY);
      MarkLinks(navLinks, current);
    }

    /** The scroll handler: both thresholds, then the link highlight. */
    method HandleScroll(scrollY: int, sections: seq<Section>)
      modifies this, navLinks
      ensures navbarScrolled == NavbarScrolled(scrollY)
      ensures backToTopVisible == BackToTopVisible(scrollY)
      ensures forall i :: 0 <= i < navLinks.Length ==> navLinks[i].href == old(navLinks[i].href)
      ensures forall i :: 0 <= i < navLinks.Length ==>
        (navLinks[i].active <==> navLinks[i].href == Str(Target(CurrentId(sections, scrollY))))
    {
      if scrollY > NavbarThreshold {
        navbarScrolled := true;
      } else {
        navbarScrolled := false;
      }
      if scrollY > BackToTopThreshold {
        backToTopVisible := true;
      } else {
        backToTopVisible := false;
      }
      HighlightActiveNav(scrollY, sections);
    }
  }
}

/** The page scripts of js/main.js: the mobile menu, the navigation links and their
    scroll-driven highlighting, the navbar and back-to-top toggles, the project filter, the
    testimonial slider, the one-shot stats counter, lazy images and the in-page scroll target.
    Elements are abstracted to the part of their state a script touches: a class as a flag, a
    `display` as a flag, an attribute as an optional string. */
module Site {
  import opened JsText
  import opened Intersection

  /** `scrollY` beyond which the navbar gets 'scrolled'. */
  const NavbarThreshold: int := 50
  /** `scrollY` beyond which the back-to-top button gets 'visible'. */
  const BackToTopThreshold: int := 300
  /** How far above a section its highlighting band starts. */
  const SectionLead: int := 100
  /** The height of the fixed navbar an in-page scroll leaves room for. */
  const NavbarHeight: int := 80

  // ---------------------------------------------------------------------------------------
  // Section highlighting
  // ---------------------------------------------------------------------------------------

  /** A `section[id]`, as highlighting reads it. */
  datatype Section = Section(id: string, offsetTop: int, offsetHeight: int)

  /** The section's band holds the scroll position: `scrollY` is past `offsetTop - 100` and
      at most `offsetHeight` further. */
  predicate InBand(s: Section, scrollY: int) {
    var top := s.offsetTop - SectionLead;
    scrollY > top && scrollY <= top + s.offsetHeight
  }

  /** The last section, in document order, whose band holds `scrollY`. */
  function LastMatch(sections: seq<Section>, scrollY: int): (r: Option<nat>)
    ensures r.Some? ==> r.value < |sections| && InBand(sections[r.value], scrollY)
    ensures r.Some? ==> forall k :: r.value < k < |sections| ==> !InBand(sections[k], scrollY)
    ensures r.None? ==> forall k :: 0 <= k < |sections| ==> !InBand(sections[k], scrollY)
  {
    if |sections| == 0 then None
    else if InBand(sections[|sections| - 1], scrollY) then Some(|sections| - 1)
    else LastMatch(sections[..|sections| - 1], scrollY)
  }

  /** The href of the nav link that belongs to section `id`. */
  function Anchor(id: string): string {
    "#" + id
  }

  // ---------------------------------------------------------------------------------------
  // Navigation: the menu, the links and the scroll listeners
  // ---------------------------------------------------------------------------------------

  /** The navigation state of the page: the module-wide `isNavOpen` flag, the 'active' class of
      the hamburger and of the nav menu, `body.style.overflow`, the 'active' class of each
      `.nav-link`, the 'scrolled' class of the navbar, the 'visible' class of the back-to-top
      button and the module-wide `scrollPosition`. */
  class Navigation {
    var isNavOpen: bool
    var hamburgerActive: bool
    var menuActive: bool
    var bodyOverflow: string
    /** The href of each `.nav-link`, in document order. */
    const hrefs: seq<string>
    var linkActive: seq<bool>
    var navbarScrolled: bool
    var backToTopVisible: bool
    var scrollPosition: int

    /** The hamburger and the menu are 'active', and the body does not scroll, exactly while
        the menu is open; there is one flag per link. */
    ghost predicate Valid()
      reads this
    {
      && |linkActive| == |hrefs|
      && hamburgerActive == isNavOpen && menuActive == isNavOpen
      && bodyOverflow == (if isNavOpen then "hidden" else "")
    }

    /** The page as loaded: the menu closed and the links as the markup marks them. */
    constructor Load(links: seq<string>, active: seq<bool>)
      requires |active| == |links|
      ensures Valid() && !isNavOpen && hrefs == links && linkActive == active
      ensures !navbarScrolled && !backToTopVisible && scrollPosition == 0
    {
      isNavOpen := false;
      hamburgerActive := false;
      menuActive := false;
      bodyOverflow := "";
      hrefs := links;
      linkActive := active;
      navbarScrolled := false;
      backToTopVisible := false;
      scrollPosition := 0;
    }

    method OpenMobileMenu()
      modifies this`hamburgerActive, this`menuActive, this`isNavOpen, this`bodyOverflow
      ensures isNavOpen && hamburgerActive && menuActive && bodyOverflow == "hidden"
    {
      hamburgerActive := true;
      menuActive := true;
      isNavOpen := true;
      bodyOverflow := "hidden";
    }

    method CloseMobileMenu()
      modifies this`hamburgerActive, this`menuActive, this`isNavOpen, this`bodyOverflow
      ensures !isNavOpen && !hamburgerActive && !menuActive && bodyOverflow == ""
    {
      hamburgerActive := false;
      menuActive := false;
      isNavOpen := false;
      bodyOverflow := "";
    }

    /** The hamburger's click listener: the menu flips. */
    method HamburgerClicked()
      requires Valid()
      modifies this`hamburgerActive, this`menuActive, this`isNavOpen, this`bodyOverflow
      ensures Valid() && isNavOpen == !old(isNavOpen)
    {
      if isNavOpen {
        CloseMobileMenu();
      } else {
        OpenMobileMenu();
      }
    }

    /** The document's click listener: an open menu closes when the click lands outside both
        the menu and the hamburger; nothing else happens. */
    method DocumentClicked(inMenu: bool, inHamburger: bool)
      requires Valid()
      modifies this`hamburgerActive, this`menuActive, this`isNavOpen, this`bodyOverflow
      ensures Valid()
      ensures isNavOpen == (old(isNavOpen) && (inMenu || inHamburger))
    {
      if isNavOpen && !inMenu && !inHamburger {
        CloseMobileMenu();
      }
    }

    /** A click on the hamburger reaches its own listener and then, bubbling, the document's;
        the second sees a target inside the hamburger, so the flip stands. */
    method ClickHamburger()
      requires Valid()
      modifies this`hamburgerActive, this`menuActive, this`isNavOpen, this`bodyOverflow
      ensures Valid() && isNavOpen == !old(isNavOpen)
    {
      HamburgerClicked();
      DocumentClicked(false, true);
    }

    /** A nav link's click listener: every link loses 'active', the clicked one gets it, and an
        open menu closes. */
    method NavLinkClicked(i: nat)
      requires Valid() && i < |hrefs|
      modifies this`linkActive, this`hamburgerActive, this`menuActive, this`isNavOpen, this`bodyOverflow
      ensures Valid() && !isNavOpen
      ensures forall j :: 0 <= j < |linkActive| ==> (linkActive[j] <==> j == i)
    {
      var j := 0;
      while j < |linkActive|
        invariant Valid() && 0 <= j <= |linkActive|
        invariant forall k :: 0 <= k < j ==> !linkActive[k]
      {
        linkActive := linkActive[j := false];
        j := j + 1;
      }
      linkActive := linkActive[i := true];
      if isNavOpen {
        CloseMobileMenu();
      }
    }

    /** `highlightActiveSection`: for each section whose band holds `scrollY`, in document
        order, every link loses 'active' and the one pointing at that section gets it. So the
        last such section wins, and with none the links stay as they were. */
    method HighlightActiveSection(sections: seq<Section>, scrollY: int)
      requires Valid()
      modifies this`linkActive
      ensures Valid()
      ensures LastMatch(sections, scrollY).None? ==> linkActive == old(linkActive)
      ensures LastMatch(sections, scrollY).Some? ==>
        forall j :: 0 <= j < |linkActive| ==>
          (linkActive[j] <==> hrefs[j] == Anchor(sections[LastMatch(sections, scrollY).value].id))
    {
      var k := 0;
      while k < |sections|
        invariant 0 <= k <= |sections|
        invariant |linkActive| == |hrefs|
        invariant LastMatch(sections[..k], scrollY).None? ==> linkActive == old(linkActive)
        invariant LastMatch(sections[..k], scrollY).Some? ==>
          forall j :: 0 <= j < |linkActive| ==>
            (linkActive[j] <==> hrefs[j] == Anchor(sections[LastMatch(sections[..k], scrollY).value].id))
      {
        assert sections[..k + 1][..k] == sections[..k];
        var section := sections[k];
        if InBand(section, scrollY) {
          var j := 0;
          while j < |linkActive|
            invariant 0 <= j <= |linkActive| == |hrefs|
            invariant forall m :: 0 <= m < j ==> (linkActive[m] <==> hrefs[m] == Anchor(section.id))
          {
            linkActive := linkActive[j := false];
            if hrefs[j] == Anchor(section.id) {
              linkActive := linkActive[j := true];
            }
            j := j + 1;
          }
        }
        k := k + 1;
      }
      assert sections[..k] == sections;
    }

    /** A 'scroll' event. The window listeners run in registration order: the navbar toggle,
        the back-to-top toggle and the position record, then the highlighting registered by
        `initNavigation`. */
    method Scroll(sections: seq<Section>, scrollY: int)
      requires Valid()
      modifies this`navbarScrolled, this`backToTopVisible, this`scrollPosition, this`linkActive
      ensures Valid()
      ensures navbarScrolled == (scrollY > NavbarThreshold)
      ensures backToTopVisible == (scrollY > BackToTopThreshold)
      ensures scrollPosition == scrollY
      ensures LastMatch(sections, scrollY).None? ==> linkActive == old(linkActive)
      ensures LastMatch(sections, scrollY).Some? ==>
        forall j :: 0 <= j < |linkActive| ==>
          (linkActive[j] <==> hrefs[j] == Anchor(sections[LastMatch(sections, scrollY).value].id))
    {
      navbarScrolled := scrollY > NavbarThreshold;
      backToTopVisible := scrollY > BackToTopThreshold;
      scrollPosition := scrollY;
      HighlightActiveSection(sections, scrollY);
    }
  }

  // ---------------------------------------------------------------------------------------
  // In-page links
  // ---------------------------------------------------------------------------------------

  /** What a click on an `a[href^="#"]` leads to. */
  datatype ScrollAction =
    | Stay            // the default is prevented and nothing scrolls
    | ScrollTo(top: int)
    | Follow          // no element matched: the browser follows the link itself

  /** The smooth-scroll click listener, given the `offsetTop` of the element `href` selects,
      if any. */
  function AnchorClick(href: string, targetTop: Option<int>): (r: ScrollAction)
    ensures href == "#" ==> r == Stay
    ensures href != "#" && targetTop.Some? ==> r.ScrollTo? && r.top + NavbarHeight == targetTop.value
    ensures href != "#" && targetTop.None? ==> r == Follow
  {
    if href == "#" then Stay
    else match targetTop
      case Some(top) => ScrollTo(top - NavbarHeight)
      case None => Follow
  }

  // ---------------------------------------------------------------------------------------
  // Project filter
  // ---------------------------------------------------------------------------------------

  /** The string `category.includes(filter)` searches for: a missing `data-filter` is `null`,
      which `includes` converts to "null". */
  function FilterText(filter: Option<string>): string {
    match filter
    case Some(f) => f
    case None => "null"
  }

  /** Whether a card with `data-category` `category` is shown under `filter`. */
  predicate Shows(filter: Option<string>, category: string) {
    filter == Some("all") || Includes(category, FilterText(filter))
  }

  /** A filter other than 'all' shows exactly the cards whose category holds it somewhere. */
  lemma ShowsIffSubstring(filter: string, category: string)
    requires filter != "all"
    ensures Shows(Some(filter), category) <==> exists i :: OccursAt(category, filter, i)
  {
    IncludesIffOccurs(category, filter);
  }

  /** The first card without a `data-category`, if any. */
  function FirstMissing(categories: seq<Option<string>>): (r: Option<nat>)
    ensures r.Some? ==> r.value < |categories| && categories[r.value].None?
    ensures r.Some? ==> forall c :: 0 <= c < r.value ==> categories[c].Some?
    ensures r.None? ==> forall c :: 0 <= c < |categories| ==> categories[c].Some?
  {
    if |categories| == 0 then None
    else if categories[0].None? then Some(0)
    else match FirstMissing(categories[1..])
      case None => None
      case Some(c) => Some(c + 1)
  }

  /** The project filter: the 'active' class of each `.filter-btn` and the display of each
      `.project-card`, as it stands once the fade timers have run. */
  class ProjectFilter {
    /** The `data-filter` of each button. */
    const filters: seq<Option<string>>
    var buttonActive: seq<bool>
    /** The `data-category` of each card. */
    const categories: seq<Option<string>>
    var cardShown: seq<bool>

    ghost predicate Valid()
      reads this
    {
      |buttonActive| == |filters| && |cardShown| == |categories|
    }

    /** The page as loaded: every card shown, the buttons as the markup marks them. */
    constructor Load(buttons: seq<Option<string>>, active: seq<bool>, cards: seq<Option<string>>)
      requires |active| == |buttons|
      ensures Valid() && filters == buttons && buttonActive == active && categories == cards
      ensures forall c :: 0 <= c < |cardShown| ==> cardShown[c]
    {
      filters := buttons;
      buttonActive := active;
      categories := cards;
      cardShown := seq(|cards|, c => true);
    }

    /** `filterProjects(filter, cards)`. Under 'all' every card shows. Otherwise each card in
        turn shows exactly when its category holds the filter; a card without a category makes
        `category.includes` throw a TypeError, which ends the loop there with the later cards
        untouched. The index of that card is returned. */
    method FilterProjects(filter: Option<string>) returns (thrownAt: Option<nat>)
      requires Valid()
      modifies this`cardShown
      ensures Valid()
      ensures thrownAt == if filter == Some("all") then None else FirstMissing(categories)
      ensures var stop := if thrownAt.Some? then thrownAt.value else |categories|;
        forall c :: 0 <= c < |cardShown| ==>
          cardShown[c] == if c < stop then filter == Some("all") || Shows(filter, categories[c].value) else old(cardShown)[c]
    {
      var c := 0;
      thrownAt := None;
      while c < |categories|
        invariant 0 <= c <= |categories| == |cardShown|
        invariant filter != Some("all") ==> forall k :: 0 <= k < c ==> categories[k].Some?
        invariant forall k :: 0 <= k < |cardShown| ==>
          cardShown[k] == if k < c then filter == Some("all") || Shows(filter, categories[k].value) else old(cardShown)[k]
      {
        if filter == Some("all") {
          cardShown := cardShown[c := true];
        } else {
          match categories[c]
          case None =>
            thrownAt := Some(c);
            assert FirstMissing(categories) == Some(c);
            return;
          case Some(category) =>
            cardShown := cardShown[c := Includes(category, FilterText(filter))];
        }
        c := c + 1;
      }
    }

    /** A filter button's click listener: exactly that button carries 'active', and the cards
        are filtered by its `data-filter`. */
    method FilterClicked(b: nat) returns (thrownAt: Option<nat>)
      requires Valid() && b < |filters|
      modifies this`buttonActive, this`cardShown
      ensures Valid()
      ensures forall k :: 0 <= k < |buttonActive| ==> (buttonActive[k] <==> k == b)
      ensures var filter := filters[b];
        && thrownAt == (if filter == Some("all") then None else FirstMissing(categories))
        && var stop := if thrownAt.Some? then thrownAt.value else |categories|;
           forall c :: 0 <= c < |cardShown| ==>
             cardShown[c] == if c < stop then filter == Some("all") || Shows(filter, categories[c].value) else old(cardShown)[c]
    {
      var k := 0;
      while k < |buttonActive|
        invariant Valid() && 0 <= k <= |buttonActive|
        invariant cardShown == old(cardShown)
        invariant forall m :: 0 <= m < k ==> !buttonActive[m]
      {
        buttonActive := buttonActive[k := false];
        k := k + 1;
      }
      buttonActive := buttonActive[b := true];
      thrownAt := FilterProjects(filters[b]);
    }
  }

  // ---------------------------------------------------------------------------------------
  // Testimonial slider
  // ---------------------------------------------------------------------------------------

  /** The index the next button and autoplay move to. */
  function NextIndex(c: nat, n: nat): (r: nat)
    requires c < n
    ensures r < n
  {
    (c + 1) % n
  }

  /** The index the previous button moves to; `c - 1 + n` is never negative, so JavaScript's
      `%` agrees with Dafny's here. */
  function PrevIndex(c: nat, n: nat): (r: nat)
    requires c < n
    ensures r < n
  {
    (c - 1 + n) % n
  }

  /** The sign rule `ModUnique` needs, which the solver does not find on its own. */
  lemma MulNonNegative(a: int, b: int)
    requires a >= 0 && b >= 0
    ensures a * b >= 0
  {
  }

  /** The remainder is the `r` of any decomposition `x == q * n + r` with `0 <= r < n`. */
  lemma ModUnique(x: int, n: int, q: int, r: int)
    requires n > 0 && 0 <= r < n && x == q * n + r
    ensures x % n == r
  {
    var q2, r2 := x / n, x % n;
    assert (q - q2) * n == r2 - r;
    if q2 < q {
      MulNonNegative(q - q2 - 1, n);
    } else if q2 > q {
      MulNonNegative(q2 - q - 1, n);
    }
  }

  /** The next index wraps from the last slide to the first. */
  lemma NextIndexWraps(c: nat, n: nat)
    requires c < n
    ensures NextIndex(c, n) == if c + 1 == n then 0 else c + 1
  {
    if c + 1 == n {
      ModUnique(c + 1, n, 1, 0);
    } else {
      ModUnique(c + 1, n, 0, c + 1);
    }
  }

  /** The previous index wraps from the first slide to the last. */
  lemma PrevIndexWraps(c: nat, n: nat)
    requires c < n
    ensures PrevIndex(c, n) == if c == 0 then n - 1 else c - 1
  {
    if c == 0 {
      ModUnique(n - 1, n, 0, n - 1);
    } else {
      ModUnique(c - 1 + n, n, 1, c - 1);
    }
  }

  /** Next and previous undo each other. */
  lemma NextPrevInverse(c: nat, n: nat)
    requires c < n
    ensures PrevIndex(NextIndex(c, n), n) == c
    ensures NextIndex(PrevIndex(c, n), n) == c
  {
    NextIndexWraps(c, n);
    PrevIndexWraps(c, n);
    NextIndexWraps(PrevIndex(c, n), n);
    PrevIndexWraps(NextIndex(c, n), n);
  }

  /** `k` steps forward from `c`. */
  function Advance(c: nat, n: nat, k: nat): (r: nat)
    requires c < n
    ensures r < n
  {
    if k == 0 then c else NextIndex(Advance(c, n, k - 1), n)
  }

  /** A step forward from a remainder is the remainder of the next number. */
  lemma NextOfRemainder(x: nat, n: nat)
    requires n > 0
    ensures NextIndex(x % n, n) == (x + 1) % n
  {
    var q, r := x / n, x % n;
    NextIndexWraps(r, n);
    if r + 1 < n {
      ModUnique(x + 1, n, q, r + 1);
    } else {
      ModUnique(x + 1, n, q + 1, 0);
    }
  }

  /** `k` steps forward land on `(c + k) % n`; in particular `n` steps come back to `c`. */
  lemma {:induction false} AdvanceIsModular(c: nat, n: nat, k: nat)
    requires c < n
    ensures Advance(c, n, k) == (c + k) % n
  {
    if k == 0 {
      ModUnique(c, n, 0, c);
    } else {
      AdvanceIsModular(c, n, k - 1);
      NextOfRemainder(c + k - 1, n);
    }
  }

  /** A full round of `n` steps comes back to where it started. */
  lemma FullRound(c: nat, n: nat)
    requires c < n
    ensures Advance(c, n, n) == c
  {
    AdvanceIsModular(c, n, n);
    ModUnique(c + n, n, 1, c);
  }

  /** The testimonial slider: the captured `currentSlide`, the settled display of each card and
      the 'active' class of each dot. */
  class TestimonialSlider {
    const total: nat
    var current: nat
    var slideShown: seq<bool>
    var dotActive: seq<bool>

    /** Exactly the current slide shows and exactly its dot is active. */
    ghost predicate Valid()
      reads this
    {
      && current < total && |slideShown| == total && |dotActive| == total
      && (forall i :: 0 <= i < total ==> (slideShown[i] <==> i == current))
      && (forall i :: 0 <= i < total ==> (dotActive[i] <==> i == current))
    }

    /** `showSlide(index)`: slide and dot `index` on, all others off. */
    method ShowSlide(index: nat)
      requires |slideShown| == total && |dotActive| == total
      modifies this`slideShown, this`dotActive
      ensures |slideShown| == total && |dotActive| == total
      ensures forall i :: 0 <= i < total ==> (slideShown[i] <==> i == index)
      ensures forall i :: 0 <= i < total ==> (dotActive[i] <==> i == index)
    {
      var i := 0;
      while i < total
        invariant 0 <= i <= total && |slideShown| == total && |dotActive| == total
        invariant forall k :: 0 <= k < i ==> (slideShown[k] <==> k == index)
      {
        slideShown := slideShown[i := i == index];
        i := i + 1;
      }
      i := 0;
      while i < total
        invariant 0 <= i <= total && |slideShown| == total && |dotActive| == total
        invariant forall k :: 0 <= k < total ==> (slideShown[k] <==> k == index)
        invariant forall k :: 0 <= k < i ==> (dotActive[k] <==> k == index)
      {
        dotActive := dotActive[i := i == index];
        i := i + 1;
      }
    }

    /** `initTestimonialSlider` on a page with `n` testimonial cards (with none it returns
        before building anything): the dots are created with the first active, and slide 0
        shows. */
    constructor Init(n: nat)
      requires n > 0
      ensures Valid() && total == n && current == 0
    {
      total := n;
      current := 0;
      slideShown := seq(n, i => true);
      dotActive := seq(n, i => i == 0);
      new;
      ShowSlide(0);
    }

    method Next()
      requires Valid()
      modifies this`current, this`slideShown, this`dotActive
      ensures Valid() && current == NextIndex(old(current), total)
    {
      current := (current + 1) % total;
      ShowSlide(current);
    }

    method Prev()
      requires Valid()
      modifies this`current, this`slideShown, this`dotActive
      ensures Valid() && current == PrevIndex(old(current), total)
    {
      current := (current - 1 + total) % total;
      ShowSlide(current);
    }

    /** A dot's click listener. */
    method GoToSlide(index: nat)
      requires Valid() && index < total
      modifies this`current, this`slideShown, this`dotActive
      ensures Valid() && current == index
    {
      current := index;
      ShowSlide(current);
    }

    /** The 5-second autoplay interval: the same step as the next button. */
    method Autoplay()
      requires Valid()
      modifies this`current, this`slideShown, this`dotActive
      ensures Valid() && current == NextIndex(old(current), total)
    {
      current := (current + 1) % total;
      ShowSlide(current);
    }
  }

  // ---------------------------------------------------------------------------------------
  // One-shot triggers
  // ---------------------------------------------------------------------------------------

  /** `initCounters`: the captured `hasAnimated` flag and how many times `animateCounters` was
      started. */
  class StatsCounters {
    var hasAnimated: bool
    var started: nat

    /** The counters were started once if the flag is set and never otherwise. */
    ghost predicate Valid()
      reads this
    {
      started == if hasAnimated then 1 else 0
    }

    constructor Init()
      ensures Valid() && !hasAnimated
    {
      hasAnimated := false;
      started := 0;
    }

    /** One observer callback with the `isIntersecting` of its entries, in order: the first
        intersecting entry ever seen starts the counters and sets the flag. */
    method Callback(entries: seq<bool>)
      requires Valid()
      modifies this`hasAnimated, this`started
      ensures Valid()
      ensures hasAnimated == (old(hasAnimated) || true in entries)
    {
      var k := 0;
      while k < |entries|
        invariant 0 <= k <= |entries|
        invariant started == if hasAnimated then 1 else 0
        invariant hasAnimated == (old(hasAnimated) || true in entries[..k])
      {
        assert entries[..k + 1] == entries[..k] + [entries[k]];
        if entries[k] && !hasAnimated {
          hasAnimated := true;
          started := started + 1;
        }
        k := k + 1;
      }
      assert entries[..k] == entries;
    }
  }

  /** An `img[data-src]`: its `src`, its `data-src` attribute, and whether the lazy-loading
      observer still observes it. */
  datatype Image = Image(src: string, dataSrc: Option<string>, observed: bool)

  /** The lazy-loading callback's effect on one image for one entry: an intersecting entry
      copies `data-src` into `src` (a removed attribute reads as `null`, which becomes the
      string "null"), removes the attribute and unobserves the image. */
  function LazyEntry(img: Image, isIntersecting: bool): (r: Image)
    ensures !isIntersecting ==> r == img
    ensures isIntersecting ==> !r.observed && r.dataSrc.None?
    ensures isIntersecting && img.dataSrc.Some? ==> r.src == img.dataSrc.value
  {
    if isIntersecting then
      Image(match img.dataSrc case Some(s) => s case None => "null", None, false)
    else img
  }

  /** An image after the entries `events` about it, oldest first. */
  function LazyRun(img: Image, events: seq<bool>): (r: Image)
    ensures r.observed ==> r == img
  {
    if events == [] then img else LazyEntry(LazyRun(img, events[..|events| - 1]), events[|events| - 1])
  }

  /** Entries that do not intersect leave the image alone; after an intersecting one the
      image is loaded and unobserved. Its `src` is the `data-src` it had when exactly one
      entry intersected, and "null" when a later entry of the same batch intersected again
      and read the attribute the first had removed. */
  lemma {:induction false} LazyRunLoads(img: Image, events: seq<bool>)
    requires img.dataSrc.Some?
    ensures Hits(events) == 0 ==> LazyRun(img, events) == img
    ensures Hits(events) > 0 ==> !LazyRun(img, events).observed && LazyRun(img, events).dataSrc.None?
    ensures Hits(events) == 1 ==> LazyRun(img, events).src == img.dataSrc.value
    ensures Hits(events) > 1 ==> LazyRun(img, events).src == "null"
  {
    if events != [] {
      LazyRunLoads(img, events[..|events| - 1]);
    }
  }

  /** One more entry in a batch changes only the image it is about, by one `LazyEntry`. */
  lemma LazyRunStep(img: Image, entries: seq<Entry>, k: nat, i: nat)
    requires k < |entries|
    ensures LazyRun(img, EventsFor(entries[..k + 1], i)) ==
      var before := LazyRun(img, EventsFor(entries[..k], i));
      if entries[k].target == i then LazyEntry(before, entries[k].isIntersecting) else before
  {
    assert entries[..k + 1][..k] == entries[..k];
    var events := EventsFor(entries[..k], i);
    if entries[k].target == i {
      assert (events + [entries[k].isIntersecting])[..|events|] == events;
    } else {
      assert events + [] == events;
    }
  }

  /** The images the lazy-loading observer watches. */
  class LazyImages {
    var images: seq<Image>

    /** Every image the page marks with `data-src` starts out observed, showing whatever
        `src` the markup gives it (a placeholder, or none: ""). `markup` holds each
        `img[data-src]`'s `src` and `data-src`, in document order. */
    constructor Init(markup: seq<(string, string)>)
      ensures |images| == |markup|
      ensures forall i :: 0 <= i < |images| ==> images[i] == Image(markup[i].0, Some(markup[i].1), true)
    {
      images := seq(|markup|, i requires 0 <= i < |markup| => Image(markup[i].0, Some(markup[i].1), true));
    }

    /** One observer callback. The observer only reports targets it observed when the batch
        was taken; the entries of one batch are all processed, in order, so each image goes
        through the entries about it. */
    method Callback(entries: seq<Entry>)
      requires forall k :: 0 <= k < |entries| ==> entries[k].target < |images| && images[entries[k].target].observed
      modifies this`images
      ensures |images| == |old(images)|
      ensures forall i :: 0 <= i < |images| ==> images[i] == LazyRun(old(images)[i], EventsFor(entries, i))
    {
      var k := 0;
      while k < |entries|
        invariant 0 <= k <= |entries|
        invariant |images| == |old(images)|
        invariant forall i :: 0 <= i < |images| ==> images[i] == LazyRun(old(images)[i], EventsFor(entries[..k], i))
      {
        var e := entries[k];
        assert entries[..k + 1][..k] == entries[..k];
        forall i | 0 <= i < |images|
          ensures LazyRun(old(images)[i], EventsFor(entries[..k + 1], i)) ==
            if i == e.target then LazyEntry(images[i], e.isIntersecting) else images[i]
        {
          LazyRunStep(old(images)[i], entries, k, i);
        }
        images := images[e.target := LazyEntry(images[e.target], e.isIntersecting)];
        k := k + 1;
      }
      assert entries[..k] == entries;
    }
  }
}

/**
 * The stateful parts of the home page script (js/main.js): the two sliders
 * (`ServicesCarousel`, `TestimonialsSlider`), the service grid with its modal
 * (`ServicesGrid`) and the navigation bar (`Navigation`).
 */
module MainScript {
  import opened Selection
  import opened Markup
  import Services

  // ---------------------------------------------------------------- sliders

  /** A JavaScript number as the slider index can hold it: an integer, or NaN
      once a remainder by zero has been taken. */
  datatype JsNumber = Num(n: int) | NaN

  /** The `%` operator of JavaScript on integers: the sign of the result is the
      sign of the dividend, and a zero divisor gives NaN. */
  function JsRemainder(a: int, b: int): (r: JsNumber)
    ensures b == 0 <==> r.NaN?
    ensures b != 0 && a >= 0 ==> r == Num(a % b)
  {
    if b == 0 then NaN
    else if a >= 0 then Num(a % b)
    else Num(-((-a) % b))
  }

  /** The index after a step forward: one more, wrapped by the number of slides. */
  function NextIndex(current: JsNumber, count: nat): JsNumber {
    match current
    case NaN => NaN
    case Num(i) => JsRemainder(i + 1, count)
  }

  /** The index after a step back: one less, plus the number of slides, wrapped by it. */
  function PrevIndex(current: JsNumber, count: nat): JsNumber {
    match current
    case NaN => NaN
    case Num(i) => JsRemainder(i - 1 + count, count)
  }

  /** The index of a slider of `count` slides is a slide. */
  predicate InRange(current: JsNumber, count: nat) {
    current.Num? && 0 <= current.n < count
  }

  /** The `active` flags `updateSlides` leaves: on the slide at the index only. */
  function ActiveSlides(count: nat, current: JsNumber): (r: seq<bool>)
    ensures |r| == count
  {
    seq(count, i => current == Num(i))
  }

  /** Next and previous keep the index on a slide, moving it one step forward
      or back around the circle. */
  lemma StepsStayInRange(i: int, count: nat)
    requires 0 <= i < count
    ensures NextIndex(Num(i), count) == Num(if i == count - 1 then 0 else i + 1)
    ensures PrevIndex(Num(i), count) == Num(if i == 0 then count - 1 else i - 1)
  {
    WrapOnce(i + 1, count);
    WrapOnce(i - 1 + count, count);
  }

  /** A number below twice the divisor loses the divisor once, if at all. */
  lemma WrapOnce(x: int, m: int)
    requires 0 < m && 0 <= x < 2 * m
    ensures x % m == if x < m then x else x - m
  {
    if x < m {
      ModOfSmall(x, m);
    } else {
      ModOfSmall(x - m, m);
      assert x == (x - m) + m;
    }
  }

  lemma ModOfSmall(x: int, m: int)
    requires 0 <= x < m
    ensures x % m == x && (x + m) % m == x
  {
  }

  /** Previous then next, or next then previous, comes back to the same slide. */
  lemma PrevNextInverse(i: int, count: nat)
    requires 0 <= i < count
    ensures NextIndex(PrevIndex(Num(i), count), count) == Num(i)
    ensures PrevIndex(NextIndex(Num(i), count), count) == Num(i)
  {
    StepsStayInRange(i, count);
    var p := if i == 0 then count - 1 else i - 1;
    StepsStayInRange(p, count);
    var q := if i == count - 1 then 0 else i + 1;
    StepsStayInRange(q, count);
  }

  /** On a slider without slides the first step makes the index NaN, and it stays NaN. */
  lemma EmptySliderIndexIsNaN(current: JsNumber)
    ensures NextIndex(current, 0) == NaN && PrevIndex(current, 0) == NaN
  {
  }

  /** `k` presses of next. */
  function NextTimes(current: JsNumber, count: nat, k: nat): JsNumber {
    if k == 0 then current else NextIndex(NextTimes(current, count, k - 1), count)
  }

  /** Pressing next `a` times, then `b` times, is pressing it `a + b` times. */
  lemma {:induction false} NextTimesAdd(current: JsNumber, count: nat, a: nat, b: nat)
    ensures NextTimes(current, count, a + b) == NextTimes(NextTimes(current, count, a), count, b)
  {
    if b > 0 {
      NextTimesAdd(current, count, a, b - 1);
    }
  }

  /** Before reaching the last slide, `k` presses of next move the index `k` places. */
  lemma {:induction false} NextTimesNoWrap(i: int, count: nat, k: nat)
    requires 0 <= i && i + k < count
    ensures NextTimes(Num(i), count, k) == Num(i + k)
  {
    if k > 0 {
      NextTimesNoWrap(i, count, k - 1);
      StepsStayInRange(i + k - 1, count);
    }
  }

  /** After as many presses of next as there are slides, the index is back
      where it started: the slider goes round. */
  lemma NextTimesCountIsIdentity(i: int, count: nat)
    requires 0 <= i < count
    ensures NextTimes(Num(i), count, count) == Num(i)
  {
    var toLast := count - 1 - i;
    NextTimesNoWrap(i, count, toLast);
    StepsStayInRange(count - 1, count);
    assert NextTimes(Num(i), count, toLast + 1) == Num(0);
    NextTimesAdd(Num(i), count, toLast + 1, i);
    NextTimesNoWrap(0, count, i);
  }

  /** When the index is a slide exactly one slide is active, the one at the
      index; when it is NaN none is. */
  lemma ActiveSlidesExactlyOne(count: nat, current: JsNumber)
    ensures AtMostOneActive(ActiveSlides(count, current))
    ensures InRange(current, count) ==> ActiveSlides(count, current) == OnlyAt(count, current.n)
    ensures current.NaN? ==> ActiveSlides(count, current) == NoneActive(count)
  {
  }

  /** `ServicesCarousel` and `TestimonialsSlider`, which share this code. */
  class Slider {
    var current: JsNumber
    /** The `active` class of each slide. */
    const slides: array<bool>

    /** The index is a slide, or the slider has no slides. */
    predicate Valid()
      reads this
    {
      InRange(current, slides.Length) || slides.Length == 0
    }

    constructor (initial: seq<bool>)
      ensures current == Num(0) && slides[..] == initial && fresh(slides)
      ensures Valid()
    {
      current := Num(0);
      slides := new bool[|initial|](i requires 0 <= i < |initial| => initial[i]);
    }

    /** `updateSlides`: only the slide at the index is active. */
    method UpdateSlides()
      modifies slides
      ensures slides[..] == ActiveSlides(slides.Length, current)
    {
      for i := 0 to slides.Length
        invariant forall j :: 0 <= j < i ==> slides[j] == (current == Num(j))
      {
        slides[i] := false;
        if current == Num(i) {
          slides[i] := true;
        }
      }
    }

    method NextSlide()
      requires Valid()
      modifies this, slides
      ensures Valid()
      ensures current == NextIndex(old(current), slides.Length)
      ensures slides[..] == ActiveSlides(slides.Length, current)
    {
      if slides.Length > 0 {
        StepsStayInRange(current.n, slides.Length);
      }
      current := match current
        case NaN => NaN
        case Num(i) => JsRemainder(i + 1, slides.Length);
      UpdateSlides();
    }

    method PrevSlide()
      requires Valid()
      modifies this, slides
      ensures Valid()
      ensures current == PrevIndex(old(current), slides.Length)
      ensures slides[..] == ActiveSlides(slides.Length, current)
    {
      if slides.Length > 0 {
        StepsStayInRange(current.n, slides.Length);
      }
      current := match current
        case NaN => NaN
        case Num(i) => JsRemainder(i - 1 + slides.Length, slides.Length);
      UpdateSlides();
    }
  }

  // ---------------------------------------------------------------- services grid

  datatype GridSection = GridSection(title: string, items: seq<string>)

  /** A record of `initServicesData`. */
  datatype GridService = GridService(
    title: string,
    badge: string,
    icon: string,
    description: string,
    duration: string,
    sections: seq<GridSection>)

  /** The keys of `initServicesData`. */
  const GridServiceIds: set<string> :=
    {"osteopathie", "massage", "phytotherapie", "acupuncture", "bilan", "suivi"}

  /** The two catalogs do not name the sports follow-up alike: the key of one
      is missing from the other, both ways. */
  lemma CatalogKeysDisagree()
    ensures "suivi-sportif" in Services.ModalServiceIds && "suivi-sportif" !in GridServiceIds
    ensures "suivi" in GridServiceIds && "suivi" !in Services.ModalServiceIds
    ensures Services.ModalServiceIds - GridServiceIds == {"suivi-sportif"}
    ensures GridServiceIds - Services.ModalServiceIds == {"suivi"}
  {
  }

  /** What the disagreement means for the sports follow-up: on the home page
      the key 'suivi-sportif' finds no record, so `openModal` leaves the modal
      as it was; on the services page the key 'suivi' is unknown, so
      `getServiceData` shows the osteopathy record instead. */
  lemma SportsFollowUpKeys(grid: map<string, GridService>, services: map<string, Services.ServiceRecord>)
    requires grid.Keys == GridServiceIds
    requires services.Keys == Services.ModalServiceIds
    ensures "suivi-sportif" !in grid && "suivi" in grid
    ensures "suivi-sportif" in services
    ensures Services.GetServiceData(services, "suivi") == services["osteopathie"]
  {
    CatalogKeysDisagree();
    Services.UnknownServiceShowsOsteopathy(services, "suivi");
  }

  /** One `.modal-section`: its title and its list. */
  function SectionNode(s: GridSection): Node {
    Element("div", "modal-section", [Element("h4", "", [Text(s.title)]), Element("ul", "", ListItems(s.items))])
  }

  /** The section nodes, in the order of the sections. */
  function SectionNodes(sections: seq<GridSection>): (r: seq<Node>)
    ensures |r| == |sections|
    ensures forall k :: 0 <= k < |sections| ==> r[k] == SectionNode(sections[k])
  {
    if sections == [] then [] else SectionNodes(sections[..|sections| - 1]) + [SectionNode(sections[|sections| - 1])]
  }

  function Header(s: GridService): Node {
    Element("div", "modal-header", [
      Element("div", "modal-icon", [Element("i", s.icon, [])]),
      Element("div", "modal-title-section", [
        Element("h2", "", [Text(s.title)]),
        Element("div", "modal-badge", [Text(s.badge)])])])
  }

  function DurationNode(s: GridService): Node {
    Element("div", "modal-duration", [Element("i", "fas fa-clock", []), Element("span", "", [Text("Durée : " + s.duration)])])
  }

  /** The content `generateModalContent` produces. */
  function ModalContent(s: GridService): seq<Node> {
    [Header(s), Element("div", "modal-description", [Text(s.description)])]
    + SectionNodes(s.sections)
    + [DurationNode(s)]
  }

  /** Reads a section back from its node. */
  function ReadSection(n: Node): GridSection {
    if n.Element? && |n.children| == 2 && n.children[0].Element? && |n.children[0].children| == 1
       && n.children[0].children[0].Text? && n.children[1].Element?
    then GridSection(n.children[0].children[0].text, ItemTexts(n.children[1].children))
    else GridSection("", [])
  }

  /** The content has the header and the description, then one `.modal-section`
      per section of the record in order, each listing the section's items in
      order, then the duration. */
  lemma ModalContentShowsSections(s: GridService)
    ensures |ModalContent(s)| == |s.sections| + 3
    ensures ModalContent(s)[0] == Header(s)
    ensures ModalContent(s)[|s.sections| + 2] == DurationNode(s)
    ensures ModalContent(s)[1].cls == "modal-description"
    ensures forall k :: 0 <= k < |s.sections| ==> ReadSection(ModalContent(s)[k + 2]) == s.sections[k]
  {
    forall k | 0 <= k < |s.sections|
      ensures ReadSection(ModalContent(s)[k + 2]) == s.sections[k]
    {
      ItemTextsOfListItems(s.sections[k].items);
    }
  }

  class ServicesGrid {
    const catalog: map<string, GridService>
    var active: bool
    var bodyOverflow: string
    var body: seq<Node>

    /** The catalog is the one of `initServicesData`, and the page scrolls
        exactly when the modal is closed. */
    predicate Valid()
      reads this
    {
      catalog.Keys == GridServiceIds && (active <==> bodyOverflow == "hidden")
    }

    constructor (services: map<string, GridService>)
      requires services.Keys == GridServiceIds
      ensures Valid() && catalog == services && !active && bodyOverflow == "" && body == []
    {
      catalog := services;
      active := false;
      bodyOverflow := "";
      body := [];
    }

    /** `generateModalContent`: the sections are appended one by one. */
    method GenerateModalContent(s: GridService) returns (content: seq<Node>)
      ensures content == ModalContent(s)
    {
      var sectionsHtml: seq<Node> := [];
      for k := 0 to |s.sections|
        invariant sectionsHtml == SectionNodes(s.sections[..k])
      {
        assert s.sections[..k + 1][..k] == s.sections[..k];
        sectionsHtml := sectionsHtml + [SectionNode(s.sections[k])];
      }
      assert s.sections[..|s.sections|] == s.sections;
      content := [Header(s), Element("div", "modal-description", [Text(s.description)])] + sectionsHtml + [DurationNode(s)];
    }

    /** `openModal`: an unknown key changes nothing; a known one renders its
        record and shows the modal. */
    method OpenModal(key: string)
      requires Valid()
      modifies this
      ensures Valid()
      ensures key !in catalog ==> active == old(active) && bodyOverflow == old(bodyOverflow) && body == old(body)
      ensures key in catalog ==> active && bodyOverflow == "hidden" && body == ModalContent(catalog[key])
    {
      if key !in catalog {
        return;
      }
      var service := catalog[key];
      body := GenerateModalContent(service);
      active := true;
      bodyOverflow := "hidden";
    }

    /** `closeModal`. With GSAP loaded the modal is closed by the `onComplete`
        callback of the closing animation; the model takes that animation as
        finished, so both branches of the source end in this one state. */
    method CloseModal()
      requires Valid()
      modifies this
      ensures Valid() && body == old(body)
      ensures !active && bodyOverflow == ""
    {
      active := false;
      bodyOverflow := "";
    }
  }

  // ---------------------------------------------------------------- navigation

  /** A `section[id]` element: its id, `offsetTop` and `clientHeight`. */
  datatype PageSection = PageSection(id: string, offsetTop: int, height: int)

  /** The section counts as current at scroll position `y`. */
  predicate InView(s: PageSection, y: real) {
    (s.offsetTop - 100) as real <= y < (s.offsetTop - 100 + s.height) as real
  }

  /** The id of the last section in view, or '' when none is. */
  function LastInView(sections: seq<PageSection>, y: real): string {
    if sections == [] then ""
    else if InView(sections[|sections| - 1], y) then sections[|sections| - 1].id
    else LastInView(sections[..|sections| - 1], y)
  }

  /** `LastInView` is the id of a section in view with none after it in view,
      or '' when none at all is in view. */
  lemma {:induction false} LastInViewIsLast(sections: seq<PageSection>, y: real)
    ensures (forall j :: 0 <= j < |sections| ==> !InView(sections[j], y)) ==> LastInView(sections, y) == ""
    ensures (exists j :: 0 <= j < |sections| && InView(sections[j], y)) ==>
      exists k :: 0 <= k < |sections| && InView(sections[k], y) && LastInView(sections, y) == sections[k].id
                  && forall j :: k < j < |sections| ==> !InView(sections[j], y)
  {
    if sections != [] {
      var init := sections[..|sections| - 1];
      LastInViewIsLast(init, y);
      if !InView(sections[|sections| - 1], y) {
        if exists j :: 0 <= j < |sections| && InView(sections[j], y) {
          var j :| 0 <= j < |sections| && InView(sections[j], y);
          assert InView(init[j], y);
        }
        if forall j :: 0 <= j < |init| ==> !InView(init[j], y) {
          assert forall j :: 0 <= j < |sections| ==> !InView(sections[j], y) by {
            forall j | 0 <= j < |sections| ensures !InView(sections[j], y) {
              if j < |init| { assert sections[j] == init[j]; }
            }
          }
        }
      }
    }
  }

  /** The `active` flags of the links: those whose href is '#' followed by the current id. */
  function ActiveLinks(hrefs: seq<string>, current: string): (r: seq<bool>)
    ensures |r| == |hrefs|
  {
    seq(|hrefs|, i requires 0 <= i < |hrefs| => hrefs[i] == "#" + current)
  }

  /** With distinct hrefs at most one link is active; when no section is in
      view the only link that can be active is one whose href is '#'. */
  lemma ActiveLinksAtMostOne(hrefs: seq<string>, current: string)
    requires forall i, j :: 0 <= i < j < |hrefs| ==> hrefs[i] != hrefs[j]
    ensures AtMostOneActive(ActiveLinks(hrefs, current))
    ensures current == "" ==> forall i :: 0 <= i < |hrefs| ==> (ActiveLinks(hrefs, current)[i] <==> hrefs[i] == "#")
  {
    if current == "" {
      assert "#" + current == "#";
    }
  }

  class Navigation {
    /** The `scrolled` class of the navigation bar. */
    var scrolled: bool
    const sections: seq<PageSection>
    /** The href of each `.nav-link`, and its `active` class. */
    const hrefs: seq<string>
    const links: array<bool>

    predicate Valid()
      reads this
    {
      |hrefs| == links.Length
    }

    /** The links start with the `active` classes of the markup. */
    constructor (pageSections: seq<PageSection>, linkHrefs: seq<string>, initialLinks: seq<bool>)
      requires |initialLinks| == |linkHrefs|
      ensures Valid() && sections == pageSections && hrefs == linkHrefs && !scrolled
      ensures fresh(links) && links[..] == initialLinks
    {
      scrolled := false;
      sections := pageSections;
      hrefs := linkHrefs;
      links := new bool[|linkHrefs|](i requires 0 <= i < |initialLinks| => initialLinks[i]);
    }

    /** The scroll listener of `handleScroll`. */
    method UpdateNavbar(y: real)
      modifies this`scrolled
      ensures scrolled <==> y > 50.0
    {
      if y > 50.0 {
        scrolled := true;
      } else {
        scrolled := false;
      }
    }

    /** The first loop of the `handleActiveLinks` listener: the id of the last section in view. */
    method CurrentSection(y: real) returns (current: string)
      ensures current == LastInView(sections, y)
    {
      current := "";
      ghost var last := -1;
      for i := 0 to |sections|
        invariant -1 <= last < i
        invariant last == -1 ==> current == "" && forall j :: 0 <= j < i ==> !InView(sections[j], y)
        invariant last >= 0 ==> InView(sections[last], y) && current == sections[last].id
                                && forall j :: last < j < i ==> !InView(sections[j], y)
      {
        if (sections[i].offsetTop - 100) as real <= y < (sections[i].offsetTop - 100 + sections[i].height) as real {
          current := sections[i].id;
          last := i;
        }
      }
      LastInViewMatches(sections, y, last);
    }

    /** The second loop: the links pointing at the current section are active. */
    method UpdateActiveLinks(current: string)
      requires Valid()
      modifies links
      ensures links[..] == ActiveLinks(hrefs, current)
    {
      for i := 0 to links.Length
        invariant forall j :: 0 <= j < i ==> links[j] == (hrefs[j] == "#" + current)
      {
        links[i] := false;
        if hrefs[i] == "#" + current {
          links[i] := true;
        }
      }
    }

    /** A scroll event: both listeners, in the order they were added. */
    method OnScroll(y: real)
      requires Valid()
      modifies this`scrolled, links
      ensures Valid()
      ensures scrolled <==> y > 50.0
      ensures links[..] == ActiveLinks(hrefs, LastInView(sections, y))
    {
      UpdateNavbar(y);
      var current := CurrentSection(y);
      UpdateActiveLinks(current);
    }
  }

  /** The loop's record of the last section in view determines `LastInView`. */
  lemma {:induction false} LastInViewMatches(sections: seq<PageSection>, y: real, last: int)
    requires -1 <= last < |sections|
    requires last == -1 ==> forall j :: 0 <= j < |sections| ==> !InView(sections[j], y)
    requires last >= 0 ==> InView(sections[last], y) && forall j :: last < j < |sections| ==> !InView(sections[j], y)
    ensures LastInView(sections, y) == (if last == -1 then "" else sections[last].id)
  {
    if sections != [] && last != |sections| - 1 {
      var init := sections[..|sections| - 1];
      assert forall j :: 0 <= j < |init| ==> init[j] == sections[j];
      LastInViewMatches(init, y, last);
    }
  }
}

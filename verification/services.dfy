/**
 * The services page (js/services.js): the category filter of the service
 * cards (classes `ServiceFilter` and `SimpleBadgesFilter`, whose filtering and
 * button updates are alike once the click is taken to land on a button), the
 * service modal with its catalog, and the accordion of `FAQSystem`.
 */
module Services {
  import opened Wrappers
  import opened Selection
  import opened Markup

  // ---------------------------------------------------------------- card filter

  /** A `.service-card-detailed` element: its `data-category` and its classes. */
  datatype Card = Card(category: string, hidden: bool, filtering: bool, show: bool)

  /** A card once the timers of `filterServices(tag)` have run: `hidden` unless
      it matches, `filtering` and `show` removed. */
  function Filtered(c: Card, tag: string): Card {
    c.(hidden := !CategoryMatches(tag, c.category), filtering := false, show := false)
  }

  /** Every card filtered: the same cards, in the same order, with the same
      categories; a card is hidden exactly when the tag is neither 'all' nor its
      category; no card is left `filtering` or `show`. */
  function FilteredAll(cards: seq<Card>, tag: string): (r: seq<Card>)
    ensures |r| == |cards|
    ensures forall i :: 0 <= i < |r| ==> r[i].category == cards[i].category
    ensures forall i :: 0 <= i < |r| ==> (r[i].hidden <==> tag != "all" && cards[i].category != tag)
    ensures forall i :: 0 <= i < |r| ==> !r[i].filtering && !r[i].show
  {
    seq(|cards|, i requires 0 <= i < |cards| => Filtered(cards[i], tag))
  }

  /** Only the last filter counts: filtering a filtered list is filtering the
      original list with the new tag; so filtering twice with one tag is
      filtering once. */
  lemma LastFilterWins(cards: seq<Card>, first: string, second: string)
    ensures FilteredAll(FilteredAll(cards, first), second) == FilteredAll(cards, second)
  {
  }

  /** The tag 'all' shows every card. */
  lemma AllShowsEveryCard(cards: seq<Card>)
    ensures forall i :: 0 <= i < |cards| ==> !FilteredAll(cards, "all")[i].hidden
  {
  }

  /** One group of filter buttons over the service cards: the `.filter-btn`
      buttons of `ServiceFilter` or the `.category-badge` buttons of
      `SimpleBadgesFilter`, each group an instance of its own. */
  class CardFilter {
    var currentFilter: string
    /** The cards, in document order. */
    const cards: array<Card>
    /** The `data-category` of each filter button, and its `active` class. */
    const buttonCategories: seq<string>
    const buttons: array<bool>

    predicate Valid()
      reads this
    {
      |buttonCategories| == buttons.Length
    }

    constructor (initialCards: seq<Card>, categories: seq<string>, initialActive: seq<bool>)
      requires |categories| == |initialActive|
      ensures Valid()
      ensures currentFilter == "all"
      ensures cards[..] == initialCards && buttonCategories == categories && buttons[..] == initialActive
      ensures fresh(cards) && fresh(buttons)
    {
      currentFilter := "all";
      cards := new Card[|initialCards|](i requires 0 <= i < |initialCards| => initialCards[i]);
      buttonCategories := categories;
      buttons := new bool[|initialActive|](i requires 0 <= i < |initialActive| => initialActive[i]);
    }

    /** `filterServices(tag)`, once its timers have run: every card is marked
        `filtering`; the first timers hide or show it; the last one removes
        `filtering` and `show` from all of them. */
    method FilterServices(tag: string)
      modifies this`currentFilter, cards
      ensures currentFilter == tag
      ensures cards[..] == FilteredAll(old(cards[..]), tag)
    {
      currentFilter := tag;
      ghost var before := cards[..];
      for i := 0 to cards.Length
        invariant forall j :: 0 <= j < i ==> cards[j] == before[j].(hidden := !CategoryMatches(tag, before[j].category), filtering := false, show := CategoryMatches(tag, before[j].category))
        invariant forall j :: i <= j < cards.Length ==> cards[j] == before[j]
        invariant currentFilter == tag
      {
        var card := cards[i].(filtering := true);
        if CategoryMatches(tag, card.category) {
          card := card.(hidden := false, filtering := false, show := true);
        } else {
          card := card.(hidden := true, show := false, filtering := false);
        }
        cards[i] := card;
      }
      for i := 0 to cards.Length
        invariant forall j :: 0 <= j < i ==> cards[j] == Filtered(before[j], tag)
        invariant forall j :: i <= j < cards.Length ==> cards[j] == before[j].(hidden := !CategoryMatches(tag, before[j].category), filtering := false, show := CategoryMatches(tag, before[j].category))
        invariant currentFilter == tag
      {
        cards[i] := cards[i].(filtering := false, show := false);
      }
      assert cards[..] == FilteredAll(before, tag);
    }

    /** `updateActiveButton`: the clicked button is the only active one. */
    method UpdateActiveButton(k: nat)
      requires k < buttons.Length
      modifies buttons
      ensures buttons[..] == OnlyAt(buttons.Length, k)
    {
      SetOnlyActive(buttons, k);
    }

    /** A click on the filter button `k`, taken to land on the button itself
        rather than on one of its children. */
    method OnClick(k: nat)
      requires Valid() && k < buttons.Length
      modifies this`currentFilter, cards, buttons
      ensures Valid()
      ensures currentFilter == buttonCategories[k]
      ensures cards[..] == FilteredAll(old(cards[..]), buttonCategories[k])
      ensures buttons[..] == OnlyAt(buttons.Length, k)
    {
      FilterServices(buttonCategories[k]);
      UpdateActiveButton(k);
    }
  }

  // ---------------------------------------------------------------- service modal

  /** A record of the catalog of `getServiceData`. */
  datatype ServiceRecord = ServiceRecord(
    title: string,
    image: string,
    description: string,
    benefits: seq<string>,
    process: seq<string>,
    duration: string,
    price: string,
    indications: seq<string>)

  /** The keys of the catalog of `getServiceData`. */
  const ModalServiceIds: set<string> :=
    {"osteopathie", "massage", "phytotherapie", "acupuncture", "bilan", "suivi-sportif"}

  /** The record stored under the key, or the osteopathy record for any
      other key. */
  function GetServiceData(catalog: map<string, ServiceRecord>, id: string): (r: ServiceRecord)
    requires "osteopathie" in catalog
    ensures r in catalog.Values
    ensures id in catalog ==> r == catalog[id]
    ensures id !in catalog ==> r == catalog["osteopathie"]
  {
    if id in catalog then catalog[id] else catalog["osteopathie"]
  }

  /** With the catalog of the page, an unknown service falls back on the osteopathy record. */
  lemma UnknownServiceShowsOsteopathy(catalog: map<string, ServiceRecord>, id: string)
    requires catalog.Keys == ModalServiceIds
    requires id !in ModalServiceIds
    ensures GetServiceData(catalog, id) == catalog["osteopathie"]
  {
  }

  /** The heading of a modal section: an icon, then the caption. */
  function SectionHeading(icon: string, caption: string): Node {
    Element("h3", "", [Element("i", icon, []), Text(" " + caption)])
  }

  /** A `.modal-section` with its heading and its list. */
  function Section(icon: string, caption: string, listTag: string, listClass: string, items: seq<string>): Node {
    Element("div", "modal-section", [SectionHeading(icon, caption), Element(listTag, listClass, ListItems(items))])
  }

  function DetailCard(icon: string, caption: string, value: string): Node {
    Element("div", "detail-card", [
      Element("i", icon, []),
      Element("div", "", [Element("h4", "", [Text(caption)]), Element("p", "", [Text(value)])])])
  }

  /** The content `renderModalContent(d)` writes into the modal body. */
  function ModalBody(d: ServiceRecord): seq<Node> {
    [ Element("div", "modal-header", [
        Image(d.image, d.title, "modal-image"),
        Element("h2", "modal-title", [Text(d.title)]),
        Element("p", "modal-description", [Text(d.description)])]),
      Element("div", "modal-sections", [
        Section("fas fa-heart", "Bienfaits", "ul", "modal-list", d.benefits),
        Section("fas fa-cogs", "Déroulement", "ol", "modal-process", d.process),
        Section("fas fa-info-circle", "Indications", "ul", "modal-list", d.indications),
        Element("div", "modal-details", [
          DetailCard("fas fa-clock", "Durée", d.duration),
          DetailCard("fas fa-euro-sign", "Tarif", d.price)]),
        Element("div", "modal-cta", [
          Element("a", "btn btn-primary", [
            Element("span", "", [Text("Prendre Rendez-vous")]),
            Element("i", "fas fa-arrow-right", [])])])])]
  }

  /** The entries of the list of the `k`-th section of a modal body. */
  function SectionItems(body: seq<Node>, k: nat): seq<string> {
    if |body| == 2 && body[1].Element? && k < |body[1].children|
       && body[1].children[k].Element? && |body[1].children[k].children| == 2
       && body[1].children[k].children[1].Element?
    then ItemTexts(body[1].children[k].children[1].children)
    else []
  }

  /** The benefits, process and indications lists show one `<li>` per entry of
      the record, in the record's order: they read back as the record's lists. */
  lemma ModalListsShowRecord(d: ServiceRecord)
    ensures SectionItems(ModalBody(d), 0) == d.benefits
    ensures SectionItems(ModalBody(d), 1) == d.process
    ensures SectionItems(ModalBody(d), 2) == d.indications
  {
    var body := ModalBody(d);
    SectionItemsOfSection(body, 0, "fas fa-heart", "Bienfaits", "ul", "modal-list", d.benefits);
    SectionItemsOfSection(body, 1, "fas fa-cogs", "Déroulement", "ol", "modal-process", d.process);
    SectionItemsOfSection(body, 2, "fas fa-info-circle", "Indications", "ul", "modal-list", d.indications);
  }

  /** A section's list reads back as the entries it was rendered from. */
  lemma SectionItemsOfSection(body: seq<Node>, k: nat, icon: string, caption: string,
                              listTag: string, listClass: string, items: seq<string>)
    requires |body| == 2 && body[1].Element? && k < |body[1].children|
    requires body[1].children[k] == Section(icon, caption, listTag, listClass, items)
    ensures SectionItems(body, k) == items
  {
    ItemTextsOfListItems(items);
  }

  class ServiceModal {
    const catalog: map<string, ServiceRecord>
    /** The `active` class of the modal. */
    var active: bool
    /** `document.body.style.overflow`. */
    var bodyOverflow: string
    /** The content of `#modalBody`. */
    var body: seq<Node>

    /** The page scrolls exactly when the modal is closed. */
    predicate Valid()
      reads this
    {
      "osteopathie" in catalog && (active <==> bodyOverflow == "hidden")
    }

    constructor (services: map<string, ServiceRecord>)
      requires "osteopathie" in services
      ensures Valid() && catalog == services && !active && bodyOverflow == "" && body == []
    {
      catalog := services;
      active := false;
      bodyOverflow := "";
      body := [];
    }

    /** `openModal`: renders the record of the service and shows the modal. */
    method OpenModal(id: string)
      requires Valid()
      modifies this
      ensures Valid()
      ensures body == ModalBody(GetServiceData(catalog, id))
      ensures active && bodyOverflow == "hidden"
    {
      var data := GetServiceData(catalog, id);
      body := ModalBody(data);
      active := true;
      bodyOverflow := "hidden";
    }

    /** `closeModal`: hides the modal and gives the page its scrolling back;
        the content stays. */
    method CloseModal()
      requires Valid()
      modifies this
      ensures Valid() && body == old(body)
      ensures !active && bodyOverflow == ""
    {
      active := false;
      bodyOverflow := "";
    }

    /** The `keydown` listener: Escape closes an open modal; nothing else happens. */
    method OnKeyDown(key: string)
      requires Valid()
      modifies this
      ensures Valid() && body == old(body)
      ensures if key == "Escape" && old(active) then !active && bodyOverflow == ""
              else active == old(active) && bodyOverflow == old(bodyOverflow)
    {
      if key == "Escape" && active {
        CloseModal();
      }
    }

    /** A click on the modal: it closes only when the click is on the overlay
        itself and not on the content. */
    method OnModalClick(onOverlay: bool)
      requires Valid()
      modifies this
      ensures Valid() && body == old(body)
      ensures if onOverlay then !active && bodyOverflow == ""
              else active == old(active) && bodyOverflow == old(bodyOverflow)
    {
      if onOverlay {
        CloseModal();
      }
    }
  }

  // ---------------------------------------------------------------- FAQ of the services page

  /** The `active` flags after `toggleFAQ(k)`: every other item closed, item
      `k` flipped. */
  function ToggleFaq(flags: seq<bool>, k: nat): (r: seq<bool>)
    requires k < |flags|
    ensures |r| == |flags|
  {
    seq(|flags|, i requires 0 <= i < |flags| => i == k && !flags[k])
  }

  /** Toggling an open item closes every item; toggling a closed one leaves
      exactly that one open; so at most one item is ever open. */
  lemma ToggleFaqOutcome(flags: seq<bool>, k: nat)
    requires k < |flags|
    ensures flags[k] ==> ToggleFaq(flags, k) == NoneActive(|flags|)
    ensures !flags[k] ==> ToggleFaq(flags, k) == OnlyAt(|flags|, k)
    ensures AtMostOneActive(ToggleFaq(flags, k))
  {
    OnlyAtHasAtMostOne(|flags|, k);
  }

  /** Clicking the same question twice from a state where only it may be open
      comes back to that state. */
  lemma ToggleFaqTwice(flags: seq<bool>, k: nat)
    requires k < |flags|
    requires forall i :: 0 <= i < |flags| && i != k ==> !flags[i]
    ensures ToggleFaq(ToggleFaq(flags, k), k) == flags
  {
  }

  class FaqSystem {
    /** The `active` class of each `.faq-item`. */
    const items: array<bool>

    constructor (initial: seq<bool>)
      ensures items[..] == initial && fresh(items)
    {
      items := new bool[|initial|](i requires 0 <= i < |initial| => initial[i]);
    }

    /** `toggleFAQ`: closes every other item, then flips the clicked one. */
    method ToggleFaqItem(k: nat)
      requires k < items.Length
      modifies items
      ensures items[..] == ToggleFaq(old(items[..]), k)
    {
      var isActive := items[k];
      for i := 0 to items.Length
        invariant items[k] == isActive
        invariant forall j :: 0 <= j < i && j != k ==> !items[j]
        invariant forall j :: i <= j < items.Length ==> items[j] == old(items[j])
      {
        if i != k {
          items[i] := false;
        }
      }
      items[k] := !isActive;
    }
  }
}

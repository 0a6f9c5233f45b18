# A Dafny model of the equine osteopathy site scripts

The site's front end is a set of page scripts: `js/contact.js`, `js/services.js`,
`js/main.js`, `js/faq.js` and `js/blog.js`. Under their animation code sit a few
precise rules, and this project models those rules and proves what they promise:

- **Contact form.** The validation chain of `ContactForm`: a required value,
  then the e-mail, phone, name and location rules. The e-mail pattern and the
  French phone pattern after separators are stripped. The real-time `input`
  checks and the submit handler. The location autocomplete of
  `FormAutoComplete` and the urgency options that depend on the chosen service.
- **Services page.** The card filter (`ServiceFilter` / `SimpleBadgesFilter`)
  and its single active button. The service modal with its catalog lookup and
  its open and close states. The accordion of `FAQSystem`.
- **Home page.** The index arithmetic of the slider (`TestimonialsSlider`, which
  has the same code as `ServicesCarousel`). The modal of `ServicesGrid` and the
  content it generates. The navigation bar's `scrolled` state and its active
  link.
- **FAQ page.** The accordion of `FAQManager` and its category tabs, and the
  search of `FAQSearch`.
- **Blog page.** The category filter, the search box and the pagination
  buttons.

The model is built from these pieces:

- **Element lists.** Each list of DOM elements becomes an `array` of flags or
  records inside a `class`. Each event handler becomes a method with a
  `modifies` clause.
- **Handlers.** Each handler is proved against a pure function that states the
  settled end state. Lemmas then prove what the page promises about that
  function: at most one item open, last action wins, round trips and order.
- **Shared modules.** `JsString` models the JavaScript string operations used
  (`trim`, `toLowerCase`, `includes`, the `\s` class). `Selection` holds the
  "exactly one `active`" update and the filter predicates. `Markup` is a small
  node tree that stands for rendered HTML.
- **Timing.** Animations and timers are abstracted to their settled state: a
  GSAP `onComplete` callback or a `setTimeout` body is taken to have run.

Files: `wrappers.dfy`, `js_string.dfy`, `markup.dfy`, `selection.dfy`,
`contact_validation.dfy`, `contact_form.dfy`, `services.dfy`, `main_script.dfy`,
`faq.dfy`, `blog.dfy`.

## Model

| member | source | states |
|---|---|---|
| JsString.Trim | js/contact.js:141 | `trim()` returns an empty string exactly when the input is all white space, and otherwise a string that starts and ends with a character other than white space |
| JsString.TrimIsInnerSlice | js/contact.js:141 | the trimmed value is the slice of the input between its leading and its trailing white space |
| JsString.TrimIdempotent | js/contact.js:141 | trimming a trimmed value changes nothing |
| JsString.ContainsIffOccurs | js/contact.js:595-597 | `includes` is true exactly when the needle occurs at some position of the string |
| Markup.ItemTextsOfListItems | js/services.js:381 | mapping a list of strings to `<li>` elements and reading their texts back gives the same list, in the same order |
| Selection.OnlyAtHasAtMostOne | js/services.js:50-53 | "only element k active" and "none active" both have at most one active element |
| Selection.SetOnlyActive | js/services.js:50-53 | after removing `active` from every element and adding it to element k, exactly element k is active |
| Selection.TextMatchesIffOccurs | js/blog.js:48-53 | a search matches exactly when the lower-cased term occurs in the lower-cased first or second text |
| Selection.EmptyTermMatchesEverything | js/blog.js:48-53 | the empty term matches every element |
| Selection.TextMatchesIgnoresCase | js/blog.js:48-53 | the case of the typed term does not matter |
| ContactValidation.IsValidEmailMatchesPattern | js/contact.js:181-184 | the e-mail check accepts exactly the strings of the form local@domain.tld where each part is non-empty and has no white space and no '@' |
| ContactValidation.AddressAccepted | js/contact.js:181-184 | a local part, '@', a host, '.' and a last label, each non-empty and free of white space and '@', form an accepted address |
| ContactValidation.AddressWithoutAtOrWithSpaceRejected | js/contact.js:181-184 | a value without '@', or with white space anywhere, is refused |
| ContactValidation.SecondAtRejected | js/contact.js:181-184 | a value with two '@' is refused |
| ContactValidation.StripSeparatorsLeavesNone | js/contact.js:188 | stripping leaves no white space, '.' or '-'; the length is kept exactly when there was none |
| ContactValidation.StripSeparatorsAppend | js/contact.js:188 | stripping a concatenation strips each part and keeps their order |
| ContactValidation.StripSeparatorsOfClean | js/contact.js:188 | a string without separators is left unchanged |
| ContactValidation.StripSeparatorsOfWhitespace | js/contact.js:188 | a string made only of white space strips to the empty string |
| ContactValidation.SeparatorsAreIgnored | js/contact.js:186-190 | inserting a separator anywhere does not change the phone verdict |
| ContactValidation.NationalAndInternationalForms | js/contact.js:186-190 | a number starting with "0" or with "+33" is accepted exactly when the rest, stripped, is a digit 1-9 followed by eight digits |
| ContactValidation.StripSeparatorsOfTrimStart | js/contact.js:141 | leading white space is stripped with the other separators |
| ContactValidation.StripSeparatorsOfTrimEnd | js/contact.js:141 | trailing white space is stripped with the other separators |
| ContactValidation.PhoneCheckIgnoresTrim | js/contact.js:186-190 | the phone check gives the same verdict on the trimmed and the raw value |
| ContactValidation.GroupedNumberStripped | js/contact.js:186-190 | a number written as five pairs of digits separated by spaces, as in the example of the phone message, strips to its ten digits in order |
| ContactValidation.GroupedNumberIsValid | js/contact.js:158 | such a number starting with '0' and a non-zero digit, as the example "06 12 34 56 78" of the error message does, is accepted |
| ContactValidation.AcceptedLengths | js/contact.js:186-190 | an accepted number has 10 characters once stripped (national form) or 12 (international form) |
| ContactValidation.FirstFired | js/contact.js:146-170 | no rule fires exactly when the search finds none; a rule it finds fires, and it is the first of the list that does: no rule before its position fires |
| ContactValidation.VerdictIsFirstFiredRule | js/contact.js:146-178 | the verdict on a trimmed value is the message of the first rule that fires, in the order required, e-mail, phone, name, location; valid when none fires |
| ContactValidation.ValidIffNoRuleFires | js/contact.js:146-178 | a field is valid exactly when none of the five rules fires on its trimmed value |
| ContactValidation.RequiredTakesPrecedence | js/contact.js:147-150 | a required field whose trimmed value is empty gets 'Ce champ est obligatoire', whatever its name |
| ContactValidation.BlankOptionalFieldIsValid | js/contact.js:152-170 | a field that is not required and whose trimmed value is empty is valid |
| ContactValidation.EmailFieldVerdict | js/contact.js:152-155 | a non-blank e-mail field is invalid, with the e-mail message, exactly when its trimmed value fails the e-mail check |
| ContactValidation.PhoneFieldVerdict | js/contact.js:157-160 | a non-blank phone field is invalid, with the phone message, exactly when its trimmed value fails the phone check |
| ContactValidation.NameFieldVerdict | js/contact.js:162-165 | a first or last name is invalid exactly when its trimmed value is empty and the field required, or has one character |
| ContactValidation.LocationFieldVerdict | js/contact.js:167-170 | a location is invalid exactly when its trimmed value is empty and the field required, or has 1 to 9 characters |
| ContactValidation.AddressFieldIsValid | js/contact.js:152-155 | an e-mail field holding a well-formed address is valid, required or not |
| ContactValidation.GroupedNumberFieldIsValid | js/contact.js:157-160 | a phone field holding a number grouped as in the phone message is valid, required or not |
| ContactValidation.InputCheckAgreesWithBlur | js/contact.js:37-73 | on a value without surrounding white space, the real-time check flags an optional e-mail, phone or name field exactly when the blur validation does |
| ContactValidation.InputCheckFlagsPaddedEmail | js/contact.js:39-46 | a valid e-mail typed after a space is flagged while typing, because the real-time check does not trim, yet validates on blur |
| ContactValidation.InputCheckFlagsBlankPhone | js/contact.js:50-57 | a phone field holding only white space is flagged while typing, yet an optional one validates on blur |
| ContactForm.AfterValidationShowsVerdict | js/contact.js:172-176 | after validation the input and name are unchanged; the field has `error` exactly when invalid and `success` exactly when valid; its error element is shown exactly when invalid, with the verdict's message |
| ContactForm.AfterValidationIdempotent | js/contact.js:140-179 | validating a field again gives the same verdict and the same field |
| ContactForm.AfterInputShowsCheck | js/contact.js:24-73 | after typing, the field holds the typed value and has `error` and a shown message exactly when the real-time check flags it; fields without a real-time check never show an error while typing |
| ContactForm.FormValidMeaning | js/contact.js:127-138 | the verdict `validateForm` accumulates is true exactly when every required field has a valid verdict |
| ContactForm.ValidatedRequiredAt | js/contact.js:127-138 | the fields `validateForm` leaves are, position by position, the validated form of each required field and the unchanged optional ones |
| ContactForm.FormValidAfterValidation | js/contact.js:127-138 | validating the required fields keeps the form verdict, and validating them twice is validating them once |
| ContactForm.FormValidIffNoRequiredError | js/contact.js:127-138 | the form is valid exactly when no required field has an invalid verdict |
| ContactForm.ContactForm.constructor | js/contact.js:5-10 | the form holds the page's fields as given, and the success message is hidden |
| ContactForm.ContactForm.ValidateField | js/contact.js:140-179 | returns true exactly when the field's verdict is valid; only that field changes, to its validated form |
| ContactForm.ContactForm.ValidateForm | js/contact.js:127-138 | returns true exactly when every required field is valid; every required field is validated, with no short-circuit, and the other fields are unchanged |
| ContactForm.ContactForm.HandleSubmit | js/contact.js:98-116 | the form is sent exactly when it validates; the success message appears only then |
| ContactForm.ContactForm.OnBlur | js/contact.js:25 | the `blur` listener validates that one field |
| ContactForm.ContactForm.OnInput | js/contact.js:24-73 | the `input` listeners store the value, clear the error and apply the real-time check; only that field changes |
| ContactForm.MatchingLocationsMembers | js/contact.js:594-596 | a town is suggested exactly when it is in the list and its lower-case name contains the query |
| ContactForm.MatchingLocationsAppend | js/contact.js:594-596 | the filter keeps the list order |
| ContactForm.SuggestionsAreMatchingTowns | js/contact.js:590-598 | for input of at least two characters, the suggestions are exactly the towns of the list whose lower-case name contains the lower-cased input |
| ContactForm.LocationAutocomplete.constructor | js/contact.js:576-588 | the towns offered are the ten towns of Normandy; no list is shown and no outside-click listener waits |
| ContactForm.LocationAutocomplete.OnInput | js/contact.js:590-662 | below two characters nothing changes; otherwise the old list is removed and the matches are shown with a new one-shot outside-click listener, or no list and no listener when there are no matches |
| ContactForm.LocationAutocomplete.OnSuggestionClick | js/contact.js:646-662 | clicking a suggestion puts it in the field, removes the list and spends the listener |
| ContactForm.LocationAutocomplete.OnInsideClick | js/contact.js:658-662 | a click inside the field spends the one-shot listener and leaves the value and the list as they were |
| ContactForm.LocationAutocomplete.OnOutsideClick | js/contact.js:658-662 | clicking elsewhere keeps the value and spends the listener; it removes the list exactly when the listener was still waiting, so after an earlier click in the field the list stays |
| ContactForm.UrgencyOptions | js/contact.js:669-687 | the options always begin with 'normal' and 'urgent' |
| ContactForm.EmergencyOffered | js/contact.js:672-687 | the 'emergency' option is offered exactly when the service is neither 'bilan' nor 'suivi-sportif' |
| Services.FilteredAll | js/services.js:28-47 | once the timers have run, the cards are the same in number, order and category; a card is `hidden` exactly when the tag is not 'all' and differs from its category; none is `filtering` or `show` |
| Services.LastFilterWins | js/services.js:100-123 | filtering already filtered cards gives what filtering the original cards with the last tag gives |
| Services.AllShowsEveryCard | js/services.js:103-122 | the tag 'all' hides no card |
| Services.CardFilter.constructor | js/services.js:3-8 | the filter starts on 'all' |
| Services.CardFilter.FilterServices | js/services.js:25-48 | `currentFilter` becomes the tag and the cards become their filtered form |
| Services.CardFilter.UpdateActiveButton | js/services.js:125-128 | exactly the clicked button is active |
| Services.CardFilter.OnClick | js/services.js:90-98 | a click filters by the button's category and makes that button alone active |
| Services.GetServiceData | js/services.js:194-366 | the record stored under the id, or the 'osteopathie' record when the id is not a key; always a record of the catalog |
| Services.UnknownServiceShowsOsteopathy | js/services.js:366 | with the page's catalog keys, any other id shows the osteopathy record |
| Services.ModalListsShowRecord | js/services.js:369-423 | the benefits, process and indications lists of the modal list the record's entries, one `<li>` each, in order |
| Services.ServiceModal.constructor | js/services.js:156-161 | the modal starts closed with the page scrolling, an empty body, and 'osteopathie' in the catalog |
| Services.ServiceModal.OpenModal | js/services.js:182-187 | the modal shows the rendered record of the id, is active, and the body overflow is 'hidden' |
| Services.ServiceModal.CloseModal | js/services.js:189-192 | the modal is inactive and the body overflow cleared, from either state |
| Services.ServiceModal.OnKeyDown | js/services.js:175-179 | Escape closes an active modal; any other key, or Escape on a closed modal, changes nothing |
| Services.ServiceModal.OnModalClick | js/services.js:169-173 | a click on the overlay closes the modal; a click inside it changes nothing |
| Services.ToggleFaqOutcome | js/services.js:558-574 | clicking an open item closes every item; clicking a closed one leaves exactly it open; at most one item is ever open |
| Services.ToggleFaqTwice | js/services.js:558-574 | from a state where only the clicked item may be open, two clicks restore the state |
| Services.FaqSystem.constructor | js/services.js:539-542 | the items keep the `active` classes of the markup |
| Services.FaqSystem.ToggleFaqItem | js/services.js:558-574 | the items' `active` flags become the toggled state |
| MainScript.JsRemainder | js/main.js:671 | JavaScript `%`: NaN for a zero divisor, the mathematical remainder for a non-negative dividend |
| MainScript.StepsStayInRange | js/main.js:670-678 | from a valid index, next moves one forward and wraps to 0; prev moves one back and wraps to the last slide |
| MainScript.PrevNextInverse | js/main.js:670-678 | prev then next, and next then prev, restore the index |
| MainScript.EmptySliderIndexIsNaN | js/main.js:670-678 | with no slides both steps make the index NaN |
| MainScript.NextTimesAdd | js/main.js:670-673 | a + b steps forward are a steps then b steps |
| MainScript.NextTimesNoWrap | js/main.js:670-673 | k steps forward that do not pass the end add k to the index |
| MainScript.NextTimesCountIsIdentity | js/main.js:670-673 | as many steps forward as there are slides restore the index |
| MainScript.ActiveSlidesExactlyOne | js/main.js:660-667 | at most one slide is active; with a valid index exactly that slide is; with NaN none is |
| MainScript.Slider.constructor | js/main.js:628-630 | the slider starts at index 0 |
| MainScript.Slider.UpdateSlides | js/main.js:660-667 | the `active` flags become the ones of the current index |
| MainScript.Slider.NextSlide | js/main.js:670-673 | the index takes one step forward and the slides are updated |
| MainScript.Slider.PrevSlide | js/main.js:675-678 | the index takes one step back and the slides are updated |
| MainScript.CatalogKeysDisagree | js/main.js:321 | the home page catalog names the sports follow-up 'suivi' and the services page catalog 'suivi-sportif'; these are the only keys on which they differ |
| MainScript.SportsFollowUpKeys | js/main.js:321 | with catalogs keyed as on the two pages, 'suivi-sportif' is not a key of the home page catalog (so `openModal` leaves the modal as it was) and 'suivi' on the services page shows the osteopathy record |
| MainScript.SectionNodes | js/main.js:433-443 | one `.modal-section` per section of the record, in order |
| MainScript.ModalContentShowsSections | js/main.js:432-462 | the content is the header, the description, one section per record section in order, each listing its items in order, then the duration |
| MainScript.ServicesGrid.constructor | js/main.js:158-166 | the catalog is keyed as `initServicesData` and the modal starts closed with the page scrolling |
| MainScript.ServicesGrid.GenerateModalContent | js/main.js:432-462 | the loop that accumulates the sections produces that content |
| MainScript.ServicesGrid.OpenModal | js/main.js:380-411 | an unknown key changes nothing; a known one shows its content, makes the modal active and sets the body overflow to 'hidden' |
| MainScript.ServicesGrid.CloseModal | js/main.js:413-430 | once the closing animation has completed, the modal is inactive with the body overflow cleared and its content kept |
| MainScript.LastInViewIsLast | js/main.js:79-86 | the current id is the id of the last section in view, in document order, or '' when none is in view |
| MainScript.LastInViewMatches | js/main.js:79-86 | the section found by the loop gives that id |
| MainScript.ActiveLinksAtMostOne | js/main.js:88-93 | with distinct hrefs at most one link is active; with no section in view only a link whose href is '#' is active |
| MainScript.Navigation.constructor | js/main.js:79-81 | the sections and links are those of the page, each link keeping the `active` class of the markup, and the navbar starts without `scrolled` |
| MainScript.Navigation.UpdateNavbar | js/main.js:24-30 | the navbar has `scrolled` exactly when the scroll position is above 50 |
| MainScript.Navigation.CurrentSection | js/main.js:79-86 | the loop over the sections returns the id of the last section in view |
| MainScript.Navigation.UpdateActiveLinks | js/main.js:88-93 | exactly the links whose href is '#' followed by the current id are active |
| MainScript.Navigation.OnScroll | js/main.js:24-93 | both scroll listeners: the navbar state and the active link for the position |
| Faq.QuestionClickOutcome | js/faq.js:56-71 | a click on an open question closes just that item; a click on a closed one leaves exactly that item open |
| Faq.QuestionClickKeepsAtMostOne | js/faq.js:56-71 | from a state with at most one open item, every click keeps at most one open |
| Faq.QuestionClickAgreesWithToggleFaq | js/faq.js:56-71 | on such states this accordion and the services page's `toggleFAQ` agree |
| Faq.QuestionClickDiffersWhenTwoOpen | js/faq.js:59-63 | with two items open, closing one leaves the other open, while `toggleFAQ` closes both |
| Faq.OpenOneThenAnother | js/faq.js:64-69 | opening one item, then another, leaves only the second open |
| Faq.FaqManager.constructor | js/faq.js:3-11 | the items, the category tabs and the category blocks keep their classes and display from the markup |
| Faq.FaqManager.OpenFaqItem | js/faq.js:74-75 | the item becomes active; the others are unchanged |
| Faq.FaqManager.CloseFaqItem | js/faq.js:100-101 | the item becomes inactive; the others are unchanged |
| Faq.FaqManager.CloseAllFaqItems | js/faq.js:120-127 | no item is active afterwards |
| Faq.FaqManager.OnQuestionClick | js/faq.js:56-71 | the items become the outcome of the click |
| Faq.FaqManager.OnCategoryClick | js/faq.js:18-48 | the clicked tab alone is active; a block is displayed exactly when its category is the clicked one; every item is closed |
| Faq.CategoryDisplayShowsTarget | js/faq.js:26-44 | a block is displayed exactly when its category is the clicked one; a category without a block hides every block |
| Faq.SearchDisplayMeaning | js/faq.js:309-316 | an item is displayed exactly when the lower-cased term occurs in its lower-cased question or answer; the empty term displays every item |
| Faq.FaqSearch.constructor | js/faq.js:283-286 | the questions, answers and displays of the items, and the displays of the blocks, are those of the page |
| Faq.FaqSearch.OnSearchInput | js/faq.js:306-336 | the items are displayed by that rule; a non-empty term displays every category block, an empty one leaves them unchanged |
| Blog.FilterDisplayMeaning | js/blog.js:17-37 | after a filter click an article is displayed exactly when the filter is 'all' or the article's category |
| Blog.SearchDisplayMeaning | js/blog.js:46-66 | after a search an article is displayed exactly when the lower-cased term occurs in its lower-cased title or first paragraph |
| Blog.EmptySearchShowsEverything | js/blog.js:46-66 | the empty term displays every article, whatever filter is active |
| Blog.PageClickProperties | js/blog.js:172-181 | a page click keeps at most one active page, a second click on the same button changes nothing more, and a button that is not an arrow ends active |
| Blog.BlogPage.constructor | js/blog.js:5-6 | the filter buttons, the articles with their categories, titles and descriptions, and the enabled page buttons keep what the markup gives them |
| Blog.BlogPage.OnFilterClick | js/blog.js:9-38 | the clicked filter button alone is active and the articles are displayed by the filter rule |
| Blog.BlogPage.OnSearchInput | js/blog.js:45-67 | the articles are displayed by the search rule, which depends only on the term: the last filter or search decides |
| Blog.BlogPage.OnPageClick | js/blog.js:173-189 | a click on an inactive page button without an icon makes it the only active one; any other click changes nothing |

## Left out

- Animations: GSAP and ScrollTrigger tweens, easing, hover effects and parallax are left out. Each handler is modelled in its settled state: every `onComplete` callback and `setTimeout` body has run. Interleavings of clicks made while a timer is pending are not modelled.
- Shake class: the `error` class that `showFieldError` puts on the field's parent is not modelled. It is removed again after 500 ms.
- Form submission: the loading state, the simulated `submitForm` delay, its error alert and the success animation are left out. `HandleSubmit` records only whether the success message appears.
- Form reset: `reset()` and the page-level `resetForm` are not modelled. They are cosmetic clean-ups.
- Other page code: the Leaflet map, `js/approche.js`, the mobile menu, smooth scrolling, the video modal, lazy loading, the IntersectionObserver animations and the newsletter alerts are not part of this model. They are browser I/O or third-party libraries.
- Slider autoplay: the `setInterval` autoplay and its pause on hover are left out. `ServicesCarousel` is never instantiated (js/main.js:1286-1291). Its index code is the same as `TestimonialsSlider`'s, so `MainScript.Slider` stands for both.
- Rendered HTML: it is modelled as a tree of tag, class and text. White space, attributes other than class, src and alt (so the `href` of the call-to-action link, which is itself rendered), and the injected styles are not modelled. The catalog prose is abstract: catalogs are maps from keys to records.
- Services.GetServiceData: a key inherited from `Object.prototype` (such as "constructor") is treated as absent. In the source it would yield that inherited value.
- MainScript.ServicesGrid.OpenModal: the same applies to the grid catalog.
- JsString.ToLower: letters outside ASCII and Latin-1 are not lowered. String lengths are counted in characters, not UTF-16 code units.
- Element ids: the real-time listeners are attached by element id; the model assumes each id equals the field's `name`.
- Location listeners: the location field gets both the form's listeners and the autocomplete's. They are modelled as separate classes, so their effects on the shared field are not combined.
- Services.CardFilter.OnClick: the model assumes the click target is the button itself. In `ServiceFilter` (js/services.js:93-95) a click on a child of a `.filter-btn` (its icon or a span) reads a null category: it would hide every card that has a `data-category` and move `active` from all buttons to that child. `SimpleBadgesFilter` (js/services.js:18-20) climbs to the badge with `closest` and has no such case. Both filters are created on the same page (js/services.js:754-756) and write to the same cards; the model keeps them as separate instances, so their interleaved effects on the shared cards are not combined.
- Blog.BlogPage.OnSearchInput: the model assumes every `.article-card` has an `h3` and a `p`. In the source a card without them makes the search `forEach` throw part-way (js/blog.js:49-50), leaving the earlier cards updated and the later ones not.
- Faq.FaqSearch.OnSearchInput: the model assumes every `.faq-item` has a `.faq-question h3` and a `.faq-answer`. Without them the source throws part-way through the items (js/faq.js:310-311).
- Services.CardFilter.FilterServices: the intermediate `filtering` and `show` classes between the timers are not modelled. Only the settled classes are.
- Scroll positions: `offsetTop` and `clientHeight` are integers and the scroll position is a real number. No rounding of layout values is modelled.
- Pagination: scrolling to the top of the article grid after a page click is left out (window I/O). Disabled page buttons are not in the modelled list, because the source never selects them.
- Faq.FaqSearch: the source never instantiates this class; the line that would create it is commented out. It is modelled as written.
- Date field: the minimum date set on the date input depends on the clock and is left out.

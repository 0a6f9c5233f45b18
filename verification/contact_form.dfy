/**
 * The state the contact form (class `ContactForm`, js/contact.js) keeps on its
 * fields: the `error` and `success` classes of each input and the text and
 * `show` class of the `.form-error` element beside it, and how `validateField`,
 * `validateForm`, `handleSubmit` and the `blur` and `input` listeners update it.
 * Also the location autocomplete and the urgency options of `FormAutoComplete`.
 */
module ContactForm {
  import opened Wrappers
  import opened JsString
  import opened ContactValidation

  /** One input of the form with what the scripts read and write on it. */
  datatype Field = Field(
    name: string,
    required: bool,
    value: string,
    hasErrorElement: bool,   // a `.form-error` element in the same parent
    error: bool,             // class `error` on the input
    success: bool,           // class `success` on the input
    errorText: string,       // text of the `.form-error` element
    errorShown: bool)        // class `show` on the `.form-error` element

  /** `clearFieldError`: drops `error`, hides the message. */
  function ClearFieldError(f: Field): Field {
    f.(error := false, errorShown := if f.hasErrorElement then false else f.errorShown)
  }

  /** `showFieldError`: `error` instead of `success`, the message written and shown. */
  function ShowFieldError(f: Field, message: string): Field {
    if f.hasErrorElement then f.(error := true, success := false, errorText := message, errorShown := true)
    else f.(error := true, success := false)
  }

  /** `showFieldSuccess`: `success` instead of `error`, then `clearFieldError`. */
  function ShowFieldSuccess(f: Field): Field {
    ClearFieldError(f.(error := false, success := true))
  }

  function VerdictOf(f: Field): Verdict {
    FieldVerdict(f.name, f.required, f.value)
  }

  /** The field as `validateField` leaves it. */
  function AfterValidation(f: Field): Field {
    match VerdictOf(f)
    case Valid => ShowFieldSuccess(f)
    case Invalid(message) => ShowFieldError(f, message)
  }

  /** The field as the `input` listeners leave it once the value is `v`: the
      listener of `bindEvents` clears the error, then the real-time check of
      e-mail, phone and name fields shows or clears it again. */
  function AfterInput(f: Field, v: string): Field {
    var g := ClearFieldError(f.(value := v));
    match InputCheck(f.name, v)
    case Some(message) => ShowFieldError(g, message)
    case None => ClearFieldError(g)
  }

  /** The name, the attribute and the value of a field: what the checks read. */
  predicate SameInput(f: Field, g: Field) {
    f.name == g.name && f.required == g.required && f.value == g.value && f.hasErrorElement == g.hasErrorElement
  }

  /** After validation the field shows its verdict: exactly one of `error` and
      `success`; `error` when a rule fired, with that rule's message written and
      shown; no message shown when none fired. The input is left as it was. */
  lemma AfterValidationShowsVerdict(f: Field)
    ensures SameInput(AfterValidation(f), f)
    ensures AfterValidation(f).error <==> VerdictOf(f).Invalid?
    ensures AfterValidation(f).success <==> VerdictOf(f).Valid?
    ensures f.hasErrorElement ==> (AfterValidation(f).errorShown <==> VerdictOf(f).Invalid?)
    ensures f.hasErrorElement && VerdictOf(f).Invalid? ==> AfterValidation(f).errorText == VerdictOf(f).message
  {
  }

  /** Validating again gives the same verdict and changes nothing more. */
  lemma {:induction false} AfterValidationIdempotent(f: Field)
    ensures VerdictOf(AfterValidation(f)) == VerdictOf(f)
    ensures AfterValidation(AfterValidation(f)) == AfterValidation(f)
  {
    AfterValidationShowsVerdict(f);
  }

  /** After typing, the field is in error exactly when the real-time check
      objects to the new value, and then shows its message; every other field
      (the location, the selects, the message) only has its error cleared. */
  lemma AfterInputShowsCheck(f: Field, v: string)
    ensures AfterInput(f, v).value == v
    ensures AfterInput(f, v).error <==> InputCheck(f.name, v).Some?
    ensures f.hasErrorElement ==> (AfterInput(f, v).errorShown <==> InputCheck(f.name, v).Some?)
    ensures f.hasErrorElement && InputCheck(f.name, v).Some? ==>
              AfterInput(f, v).errorText == InputCheck(f.name, v).value
    ensures f.name !in {"email", "phone", "firstName", "lastName"} ==> !AfterInput(f, v).error
    ensures AfterInput(f, v).success == (f.success && InputCheck(f.name, v).None?)
  {
  }

  /** A field as `validateForm` leaves it: validated when it carries the
      `required` attribute, untouched otherwise. */
  function ValidatedIfRequired(f: Field): Field {
    if f.required then AfterValidation(f) else f
  }

  /** The verdict of `validateForm`, field by field from the first: every
      required field validates. */
  predicate FormValid(fields: seq<Field>)
    decreases |fields|
  {
    fields == [] ||
    (FormValid(fields[..|fields| - 1]) && (fields[|fields| - 1].required ==> VerdictOf(fields[|fields| - 1]).Valid?))
  }

  /** The fields after `validateForm`, field by field from the first. */
  function ValidatedRequired(fields: seq<Field>): (r: seq<Field>)
    ensures |r| == |fields|
    decreases |fields|
  {
    if fields == [] then []
    else ValidatedRequired(fields[..|fields| - 1]) + [ValidatedIfRequired(fields[|fields| - 1])]
  }

  /** The verdict of the first `i + 1` fields, from the verdict of the first `i`. */
  lemma FormValidStep(fields: seq<Field>, i: nat)
    requires i < |fields|
    ensures FormValid(fields[..i + 1]) == (FormValid(fields[..i]) && (fields[i].required ==> VerdictOf(fields[i]).Valid?))
  {
    assert fields[..i + 1][..i] == fields[..i];
  }

  /** One step of `validateForm`: validating field `i` when it is required
      extends the validated prefix by one field. */
  lemma ValidatedRequiredStep(fields: seq<Field>, i: nat, current: seq<Field>, next: seq<Field>)
    requires i < |fields|
    requires current == ValidatedRequired(fields[..i]) + fields[i..]
    requires next == current[i := ValidatedIfRequired(fields[i])]
    ensures next == ValidatedRequired(fields[..i + 1]) + fields[i + 1..]
  {
    var done := fields[..i + 1];
    assert done[..i] == fields[..i] && done[i] == fields[i];
    assert ValidatedRequired(done) == ValidatedRequired(fields[..i]) + [ValidatedIfRequired(fields[i])];
    UpdateAtJoin(ValidatedRequired(fields[..i]), fields[i..], ValidatedIfRequired(fields[i]));
    assert fields[i..][1..] == fields[i + 1..];
  }

  /** Replacing the first element after a prefix. */
  lemma UpdateAtJoin<T>(a: seq<T>, b: seq<T>, x: T)
    requires b != []
    ensures (a + b)[|a| := x] == a + [x] + b[1..]
  {
  }

  /** The form is valid exactly when every required field has a valid verdict. */
  lemma {:induction false} FormValidMeaning(fields: seq<Field>)
    ensures FormValid(fields) <==>
      forall i :: 0 <= i < |fields| && fields[i].required ==> VerdictOf(fields[i]).Valid?
    decreases |fields|
  {
    if fields != [] {
      var init := fields[..|fields| - 1];
      FormValidMeaning(init);
      assert forall i :: 0 <= i < |init| ==> init[i] == fields[i];
    }
  }

  /** `validateForm` validates every required field and leaves the others as they are. */
  lemma {:induction false} ValidatedRequiredAt(fields: seq<Field>, i: nat)
    requires i < |fields|
    ensures ValidatedRequired(fields)[i] == ValidatedIfRequired(fields[i])
    decreases |fields|
  {
    if i < |fields| - 1 {
      ValidatedRequiredAt(fields[..|fields| - 1], i);
    }
  }

  /** Validating a field keeps its `required` attribute and its verdict, and
      validating it again changes nothing. */
  lemma ValidatedIfRequiredStable(f: Field)
    ensures ValidatedIfRequired(f).required == f.required
    ensures VerdictOf(ValidatedIfRequired(f)) == VerdictOf(f)
    ensures ValidatedIfRequired(ValidatedIfRequired(f)) == ValidatedIfRequired(f)
  {
    AfterValidationShowsVerdict(f);
    AfterValidationIdempotent(f);
  }

  /** Validating the form does not change its verdict: a second submission of
      an unchanged form is refused or accepted as the first one was. */
  lemma {:induction false} FormValidAfterValidation(fields: seq<Field>)
    ensures FormValid(ValidatedRequired(fields)) == FormValid(fields)
    ensures ValidatedRequired(ValidatedRequired(fields)) == ValidatedRequired(fields)
    decreases |fields|
  {
    if fields != [] {
      var init := fields[..|fields| - 1];
      var last := fields[|fields| - 1];
      FormValidAfterValidation(init);
      ValidatedIfRequiredStable(last);
      var once := ValidatedRequired(fields);
      assert once[..|once| - 1] == ValidatedRequired(init);
      assert once[|once| - 1] == ValidatedIfRequired(last);
    }
  }

  /** A form whose required fields are all valid shows no error on any of
      them after `validateForm`; an invalid one shows one on some required field. */
  lemma FormValidIffNoRequiredError(fields: seq<Field>)
    ensures FormValid(fields) <==>
      forall i :: 0 <= i < |fields| && fields[i].required ==> !ValidatedRequired(fields)[i].error
  {
    FormValidMeaning(fields);
    forall i | 0 <= i < |fields|
      ensures fields[i].required ==> (ValidatedRequired(fields)[i].error <==> VerdictOf(fields[i]).Invalid?)
    {
      ValidatedRequiredAt(fields, i);
      AfterValidationShowsVerdict(fields[i]);
    }
  }

  class ContactForm {
    /** The inputs, selects and text areas of `#contactForm`, in document order. */
    const fields: array<Field>
    /** The success message is shown and the form container hidden. */
    var successShown: bool

    constructor (initial: seq<Field>)
      ensures fields[..] == initial && !successShown
      ensures fresh(fields)
    {
      fields := new Field[|initial|](i requires 0 <= i < |initial| => initial[i]);
      successShown := false;
    }

    /** `validateField`: returns whether no rule fired and shows the verdict on the field. */
    method ValidateField(i: nat) returns (valid: bool)
      requires i < fields.Length
      modifies fields
      ensures valid <==> VerdictOf(old(fields[i])).Valid?
      ensures fields[..] == old(fields[..])[i := AfterValidation(old(fields[i]))]
    {
      var f := fields[i];
      var verdict := FieldVerdict(f.name, f.required, f.value);
      match verdict
      case Valid =>
        fields[i] := ShowFieldSuccess(f);
        valid := true;
      case Invalid(message) =>
        fields[i] := ShowFieldError(f, message);
        valid := false;
    }

    /** `validateForm`: validates every required field, without stopping at the
        first invalid one, and returns whether all of them were valid. */
    method ValidateForm() returns (isValid: bool)
      modifies fields
      ensures isValid == FormValid(old(fields[..]))
      ensures fields[..] == ValidatedRequired(old(fields[..]))
    {
      ghost var before := fields[..];
      isValid := true;
      for i := 0 to fields.Length
        invariant fields[..] == ValidatedRequired(before[..i]) + before[i..]
        invariant isValid == FormValid(before[..i])
      {
        ghost var current := fields[..];
        assert current[i] == before[i];
        FormValidStep(before, i);
        if fields[i].required {
          var v := ValidateField(i);
          if !v {
            isValid := false;
          }
        }
        ValidatedRequiredStep(before, i, current, fields[..]);
      }
      assert before[..fields.Length] == before;
    }

    /** `handleSubmit`: an invalid form stays as it is, apart from the messages
        `validateForm` shows; a valid one is sent and replaced by the success
        message. */
    method HandleSubmit() returns (sent: bool)
      modifies this, fields
      ensures sent == FormValid(old(fields[..]))
      ensures fields[..] == ValidatedRequired(old(fields[..]))
      ensures successShown == (old(successShown) || sent)
    {
      sent := ValidateForm();
      if sent {
        successShown := true;
      }
    }

    /** The `blur` listener. */
    method OnBlur(i: nat) returns (valid: bool)
      requires i < fields.Length
      modifies fields
      ensures valid <==> VerdictOf(old(fields[i])).Valid?
      ensures fields[..] == old(fields[..])[i := AfterValidation(old(fields[i]))]
    {
      valid := ValidateField(i);
    }

    /** The `input` listeners once the value of field `i` has become `v`. */
    method OnInput(i: nat, v: string)
      requires i < fields.Length
      modifies fields
      ensures fields[..] == old(fields[..])[i := AfterInput(old(fields[i]), v)]
    {
      var f := ClearFieldError(fields[i].(value := v));
      match InputCheck(f.name, v) {
        case Some(message) =>
          f := ShowFieldError(f, message);
        case None =>
          f := ClearFieldError(f);
      }
      fields[i] := f;
    }
  }

  // ---------------------------------------------------------------- FormAutoComplete

  /** The towns offered for the `location` field. */
  const NormandyLocations: seq<string> := [
    "Caen, Calvados",
    "Le Havre, Seine-Maritime",
    "Rouen, Seine-Maritime",
    "Cherbourg-en-Cotentin, Manche",
    "Alençon, Orne",
    "Bayeux, Calvados",
    "Lisieux, Calvados",
    "Évreux, Eure",
    "Dieppe, Seine-Maritime",
    "Granville, Manche"
  ]

  /** The entries of the list whose lower-case form contains the query, in list order. */
  function MatchingLocations(list: seq<string>, query: string): (r: seq<string>)
    ensures |r| <= |list|
  {
    if list == [] then []
    else (if Contains(ToLower(list[0]), query) then [list[0]] else [])
         + MatchingLocations(list[1..], query)
  }

  /** An entry is suggested exactly when it is in the list and its lower-case
      form contains the query. */
  lemma {:induction false} MatchingLocationsMembers(list: seq<string>, query: string, x: string)
    ensures x in MatchingLocations(list, query) <==> x in list && Contains(ToLower(x), query)
  {
    if list != [] {
      MatchingLocationsMembers(list[1..], query, x);
      assert list == [list[0]] + list[1..];
    }
  }

  /** The filter keeps the list order: filtering a list made of two parts is
      filtering each part, one after the other. */
  lemma {:induction false} MatchingLocationsAppend(a: seq<string>, b: seq<string>, query: string)
    ensures MatchingLocations(a + b, query) == MatchingLocations(a, query) + MatchingLocations(b, query)
  {
    if a == [] {
      assert a + b == b;
    } else {
      assert (a + b)[1..] == a[1..] + b;
      MatchingLocationsAppend(a[1..], b, query);
    }
  }

  /** The suggestions among `towns` to show for the typed value, or None when
      the listener returns before touching them (fewer than two characters). */
  function Suggestions(towns: seq<string>, typed: string): Option<seq<string>> {
    var value := ToLower(typed);
    if |value| < 2 then None else Some(MatchingLocations(towns, value))
  }

  /** The location field with its list of suggestions. */
  class LocationAutocomplete {
    /** The towns offered. */
    const towns: seq<string>
    var value: string
    /** The `.location-suggestions` element and its entries, when one is on the page. */
    var box: Option<seq<string>>
    /** Whether the one-shot document click listener registered with the list
        on the page is still waiting for its click. */
    var listening: bool

    /** A pending listener belongs to a list that is on the page. */
    predicate Valid()
      reads this
    {
      listening ==> box.Some?
    }

    constructor ()
      ensures Valid()
      ensures towns == NormandyLocations && value == "" && box == None && !listening
    {
      towns := NormandyLocations;
      value := "";
      box := None;
      listening := false;
    }

    /** The `input` listener: below two characters nothing changes; otherwise
        the old list is removed and the matches, if any, are shown together
        with a fresh one-shot listener for clicks elsewhere. */
    method OnInput(typed: string)
      requires Valid()
      modifies this
      ensures Valid()
      ensures value == typed
      ensures match Suggestions(towns, typed)
              case None => box == old(box) && listening == old(listening)
              case Some(matches) =>
                box == (if matches == [] then None else Some(matches)) && listening == (matches != [])
    {
      value := typed;
      var lower := ToLower(typed);
      if |lower| < 2 {
        return;
      }
      var matches := MatchingLocations(towns, lower);
      box := None;
      listening := false;
      if |matches| == 0 {
        return;
      }
      box := Some(matches);
      listening := true;
    }

    /** A click on the entry `k`: it becomes the value and the list goes away;
        the click also reaches the document and spends its listener. */
    method OnSuggestionClick(k: nat)
      requires Valid() && box.Some? && k < |box.value|
      modifies this
      ensures Valid()
      ensures value == old(box.value[k]) && box == None && !listening
    {
      value := box.value[k];
      box := None;
      listening := false;
    }

    /** A click inside the field: the listener sees it, leaves the list in
        place and, being one-shot, is spent. */
    method OnInsideClick()
      requires Valid()
      modifies this
      ensures Valid()
      ensures value == old(value) && box == old(box) && !listening
    {
      listening := false;
    }

    /** A click anywhere else on the page removes the list, but only while its
        listener is still waiting; after that the list stays until the next
        input or a click on one of its entries. */
    method OnOutsideClick()
      requires Valid()
      modifies this
      ensures Valid()
      ensures value == old(value) && !listening
      ensures box == (if old(listening) then None else old(box))
    {
      if listening {
        box := None;
      }
      listening := false;
    }
  }

  /** Every shown suggestion is one of the towns and contains what was typed,
      whatever its case; and every such town is shown. */
  lemma SuggestionsAreMatchingTowns(towns: seq<string>, typed: string, x: string)
    requires Suggestions(towns, typed).Some?
    ensures x in Suggestions(towns, typed).value <==>
            x in towns && Contains(ToLower(x), ToLower(typed))
  {
    MatchingLocationsMembers(towns, ToLower(typed), x);
  }

  // ---------------------------------------------------------------- urgency

  /** The `value`s of the urgency options offered for a service. */
  function UrgencyOptions(service: string): (r: seq<string>)
    ensures |r| >= 2 && r[..2] == ["normal", "urgent"]
  {
    if service == "bilan" || service == "suivi-sportif" then ["normal", "urgent"]
    else ["normal", "urgent", "emergency"]
  }

  /** The 24-hour emergency option is offered for every service except the
      assessment and the sports follow-up. */
  lemma EmergencyOffered(service: string)
    ensures "emergency" in UrgencyOptions(service) <==> service != "bilan" && service != "suivi-sportif"
  {
  }
}

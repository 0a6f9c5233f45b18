/**
 * The FAQ page (js/faq.js): the accordion and the category tabs of
 * `FAQManager`, and the search of `FAQSearch`.
 */
module Faq {
  import opened JsString
  import opened Selection
  import Services

  // ---------------------------------------------------------------- accordion

  /** The `active` flags after a click on the question of item `k`: an open item
      closes alone; a closed one opens after every open item has been closed. */
  function QuestionClick(flags: seq<bool>, k: nat): (r: seq<bool>)
    requires k < |flags|
    ensures |r| == |flags|
  {
    if flags[k] then flags[k := false] else OnlyAt(|flags|, k)
  }

  /** A click on an open question closes just that item; a click on a closed
      one leaves exactly that item open. */
  lemma QuestionClickOutcome(flags: seq<bool>, k: nat)
    requires k < |flags|
    ensures flags[k] ==> (!QuestionClick(flags, k)[k]
      && forall i :: 0 <= i < |flags| && i != k ==> QuestionClick(flags, k)[i] == flags[i])
    ensures !flags[k] ==> forall i :: 0 <= i < |flags| ==> (QuestionClick(flags, k)[i] <==> i == k)
  {
  }

  /** From a state with at most one open item, every click keeps at most one open. */
  lemma QuestionClickKeepsAtMostOne(flags: seq<bool>, k: nat)
    requires k < |flags| && AtMostOneActive(flags)
    ensures AtMostOneActive(QuestionClick(flags, k))
  {
    OnlyAtHasAtMostOne(|flags|, k);
  }

  /** On such states the accordion of this page and the one of the services
      page (`toggleFAQ`) behave alike. */
  lemma QuestionClickAgreesWithToggleFaq(flags: seq<bool>, k: nat)
    requires k < |flags| && AtMostOneActive(flags)
    ensures QuestionClick(flags, k) == Services.ToggleFaq(flags, k)
  {
    if flags[k] {
      assert forall i :: 0 <= i < |flags| && i != k ==> !flags[i];
    }
  }

  /** With two items open, which no sequence of clicks produces, they differ:
      closing one leaves the other open here, while `toggleFAQ` closes both. */
  lemma QuestionClickDiffersWhenTwoOpen()
    ensures QuestionClick([true, true], 0) == [false, true]
    ensures Services.ToggleFaq([true, true], 0) == [false, false]
  {
  }

  /** Opening one item and then another leaves only the second open. */
  lemma OpenOneThenAnother(flags: seq<bool>, a: nat, b: nat)
    requires a < |flags| && b < |flags| && a != b && !flags[a]
    ensures QuestionClick(QuestionClick(flags, a), b) == OnlyAt(|flags|, b)
  {
  }

  class FaqManager {
    /** The `active` class of each `.faq-item`. */
    const items: array<bool>
    /** The `data-category` of each category button, and its `active` class. */
    const buttonCategories: seq<string>
    const buttons: array<bool>
    /** The `data-category` of each `.faq-category` block, and its `style.display`. */
    const blockCategories: seq<string>
    const blocks: array<string>

    predicate Valid()
      reads this
    {
      items != buttons && |buttonCategories| == buttons.Length && |blockCategories| == blocks.Length
    }

    constructor (initialItems: seq<bool>, categories: seq<string>, initialButtons: seq<bool>,
                 blockCats: seq<string>, initialDisplay: seq<string>)
      requires |categories| == |initialButtons| && |blockCats| == |initialDisplay|
      ensures Valid()
      ensures items[..] == initialItems && buttonCategories == categories && buttons[..] == initialButtons
      ensures blockCategories == blockCats && blocks[..] == initialDisplay
      ensures fresh(items) && fresh(buttons) && fresh(blocks)
    {
      items := new bool[|initialItems|](i requires 0 <= i < |initialItems| => initialItems[i]);
      buttonCategories := categories;
      buttons := new bool[|initialButtons|](i requires 0 <= i < |initialButtons| => initialButtons[i]);
      blockCategories := blockCats;
      blocks := new string[|initialDisplay|](i requires 0 <= i < |initialDisplay| => initialDisplay[i]);
    }

    /** `openFAQItem`. */
    method OpenFaqItem(k: nat)
      requires k < items.Length
      modifies items
      ensures items[..] == old(items[..])[k := true]
    {
      items[k] := true;
    }

    /** `closeFAQItem`. */
    method CloseFaqItem(k: nat)
      requires k < items.Length
      modifies items
      ensures items[..] == old(items[..])[k := false]
    {
      items[k] := false;
    }

    /** `closeAllFAQItems`: closes every open item. */
    method CloseAllFaqItems()
      modifies items
      ensures items[..] == NoneActive(items.Length)
    {
      for i := 0 to items.Length
        invariant forall j :: 0 <= j < i ==> !items[j]
      {
        if items[i] {
          CloseFaqItem(i);
        }
      }
    }

    /** A click on the question of item `k`. */
    method OnQuestionClick(k: nat)
      requires k < items.Length
      modifies items
      ensures items[..] == QuestionClick(old(items[..]), k)
    {
      if items[k] {
        CloseFaqItem(k);
      } else {
        CloseAllFaqItems();
        OpenFaqItem(k);
      }
    }

    /** A click on the category button `b`, once the hiding animations have
        completed: the button alone is active, the blocks of its category are
        displayed and the others not, and every item is closed. */
    method OnCategoryClick(b: nat)
      requires Valid() && b < buttons.Length
      modifies buttons, blocks, items
      ensures Valid()
      ensures buttons[..] == OnlyAt(buttons.Length, b)
      ensures blocks[..] == CategoryDisplay(blockCategories, buttonCategories[b])
      ensures items[..] == NoneActive(items.Length)
    {
      var target := buttonCategories[b];
      SetOnlyActive(buttons, b);
      for i := 0 to blocks.Length
        invariant forall j :: 0 <= j < i ==> blocks[j] == (if blockCategories[j] == target then "block" else "none")
        invariant buttons[..] == OnlyAt(buttons.Length, b)
      {
        if blockCategories[i] == target {
          blocks[i] := "block";
        } else {
          blocks[i] := "none";
        }
      }
      CloseAllFaqItems();
    }
  }

  /** The `style.display` of the category blocks after a click on the tab of `target`. */
  function CategoryDisplay(categories: seq<string>, target: string): (r: seq<string>)
    ensures |r| == |categories|
  {
    seq(|categories|, i requires 0 <= i < |categories| => if categories[i] == target then "block" else "none")
  }

  /** A block is displayed exactly when its category is the clicked one; a
      category without a block hides every block. */
  lemma CategoryDisplayShowsTarget(categories: seq<string>, target: string)
    ensures forall i :: 0 <= i < |categories| ==> (CategoryDisplay(categories, target)[i] == "block" <==> categories[i] == target)
    ensures target !in categories ==> forall i :: 0 <= i < |categories| ==> CategoryDisplay(categories, target)[i] == "none"
  {
  }

  // ---------------------------------------------------------------- search

  /** An item is displayed exactly when the lower-cased term occurs in its
      lower-cased question or answer; an empty term displays every item. */
  lemma SearchDisplayMeaning(questions: seq<string>, answers: seq<string>, term: string, i: nat)
    requires |questions| == |answers| && i < |questions|
    ensures SearchDisplay(questions, answers, term, "block")[i] == "block" <==>
      Occurs(ToLower(questions[i]), ToLower(term)) || Occurs(ToLower(answers[i]), ToLower(term))
    ensures term == "" ==> SearchDisplay(questions, answers, term, "block")[i] == "block"
  {
    TextMatchesIffOccurs(term, questions[i], answers[i]);
    if term == "" {
      EmptyTermMatchesEverything(questions[i], answers[i]);
    }
  }

  class FaqSearch {
    /** The text of each item's question and answer, and its `style.display`. */
    const questions: seq<string>
    const answers: seq<string>
    const itemDisplay: array<string>
    /** The `style.display` of each category block. */
    const blockDisplay: array<string>

    predicate Valid()
      reads this
    {
      |questions| == |answers| == itemDisplay.Length && itemDisplay != blockDisplay
    }

    constructor (qs: seq<string>, as_: seq<string>, display: seq<string>, blocks: seq<string>)
      requires |qs| == |as_| == |display|
      ensures Valid() && questions == qs && answers == as_
      ensures itemDisplay[..] == display && blockDisplay[..] == blocks
      ensures fresh(itemDisplay) && fresh(blockDisplay)
    {
      questions := qs;
      answers := as_;
      itemDisplay := new string[|display|](i requires 0 <= i < |display| => display[i]);
      blockDisplay := new string[|blocks|](i requires 0 <= i < |blocks| => blocks[i]);
    }

    /** The `input` listener, once the hiding animations have completed: the
        matching items are displayed, the others not; a non-empty term
        displays every category block. */
    method OnSearchInput(term: string)
      requires Valid()
      modifies itemDisplay, blockDisplay
      ensures itemDisplay[..] == SearchDisplay(questions, answers, term, "block")
      ensures term != "" ==> blockDisplay[..] == seq(blockDisplay.Length, i => "block")
      ensures term == "" ==> blockDisplay[..] == old(blockDisplay[..])
    {
      var searchTerm := ToLower(term);
      for i := 0 to itemDisplay.Length
        invariant forall j :: 0 <= j < i ==> itemDisplay[j] == SearchDisplay(questions, answers, term, "block")[j]
        invariant blockDisplay[..] == old(blockDisplay[..])
      {
        if Contains(ToLower(questions[i]), searchTerm) || Contains(ToLower(answers[i]), searchTerm) {
          itemDisplay[i] := "block";
        } else {
          itemDisplay[i] := "none";
        }
      }
      if searchTerm != "" {
        for i := 0 to blockDisplay.Length
          invariant forall j :: 0 <= j < i ==> blockDisplay[j] == "block"
          invariant itemDisplay[..] == SearchDisplay(questions, answers, term, "block")
        {
          blockDisplay[i] := "block";
        }
      }
    }
  }
}

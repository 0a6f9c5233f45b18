/**
 * The blog page (js/blog.js): the category filter, the search box and the
 * pagination buttons, all of which work on the `.article-card` elements and
 * the buttons of the page.
 */
module Blog {
  import opened JsString
  import opened Selection

  /** The `style.display` of the articles after a click on the filter of
      `category`, once the hiding animations have completed. */
  function FilterDisplay(articleCategories: seq<string>, category: string): (r: seq<string>)
    ensures |r| == |articleCategories|
  {
    seq(|articleCategories|, i requires 0 <= i < |articleCategories| =>
      if CategoryMatches(category, articleCategories[i]) then "flex" else "none")
  }

  /** An article is displayed after a filter click exactly when the filter is
      'all' or the article's category. */
  lemma FilterDisplayMeaning(articleCategories: seq<string>, category: string)
    ensures forall i :: 0 <= i < |articleCategories| ==>
      (FilterDisplay(articleCategories, category)[i] == "flex" <==> category == "all" || articleCategories[i] == category)
  {
  }

  /** An article is displayed after a search exactly when the lower-cased term
      occurs in its lower-cased title or description. */
  lemma SearchDisplayMeaning(titles: seq<string>, descriptions: seq<string>, term: string, i: nat)
    requires |titles| == |descriptions| && i < |titles|
    ensures SearchDisplay(titles, descriptions, term, "flex")[i] == "flex" <==>
      Occurs(ToLower(titles[i]), ToLower(term)) || Occurs(ToLower(descriptions[i]), ToLower(term))
  {
    TextMatchesIffOccurs(term, titles[i], descriptions[i]);
  }

  /** Emptying the search box displays every article, whatever filter button
      is active: the search does not look at the selected category. */
  lemma EmptySearchShowsEverything(titles: seq<string>, descriptions: seq<string>)
    requires |titles| == |descriptions|
    ensures SearchDisplay(titles, descriptions, "", "flex") == seq(|titles|, i => "flex")
  {
    forall i | 0 <= i < |titles|
      ensures SearchDisplay(titles, descriptions, "", "flex")[i] == "flex"
    {
      EmptyTermMatchesEverything(titles[i], descriptions[i]);
    }
  }

  /** The `active` flags of the page buttons after a click on button `k`: an
      active button or an arrow (a button holding an icon) changes nothing;
      another button becomes the only active one. */
  function PageClick(active: seq<bool>, arrows: seq<bool>, k: nat): (r: seq<bool>)
    requires |active| == |arrows| && k < |active|
    ensures |r| == |active|
  {
    if !active[k] && !arrows[k] then OnlyAt(|active|, k) else active
  }

  /** A page click never leaves more than one page active when there was at
      most one, and clicking the same button again changes nothing more. */
  lemma PageClickProperties(active: seq<bool>, arrows: seq<bool>, k: nat)
    requires |active| == |arrows| && k < |active|
    ensures AtMostOneActive(active) ==> AtMostOneActive(PageClick(active, arrows, k))
    ensures PageClick(PageClick(active, arrows, k), arrows, k) == PageClick(active, arrows, k)
    ensures !arrows[k] ==> PageClick(active, arrows, k)[k]
  {
    OnlyAtHasAtMostOne(|active|, k);
  }

  class BlogPage {
    /** The `data-category` of each filter button, and its `active` class. */
    const buttonCategories: seq<string>
    const buttons: array<bool>
    /** For each article: its `data-category`, the text of its `h3` and of its
        first `p`, and its `style.display`. */
    const articleCategories: seq<string>
    const titles: seq<string>
    const descriptions: seq<string>
    const display: array<string>
    /** For each enabled page button: its `active` class, and whether it holds an icon. */
    const pages: array<bool>
    const arrows: seq<bool>

    predicate Valid()
      reads this
    {
      && |buttonCategories| == buttons.Length
      && |articleCategories| == |titles| == |descriptions| == display.Length
      && |arrows| == pages.Length
      && buttons != pages
    }

    constructor (categories: seq<string>, initialButtons: seq<bool>,
                 articleCats: seq<string>, articleTitles: seq<string>, articleDescriptions: seq<string>,
                 initialDisplay: seq<string>, initialPages: seq<bool>, pageArrows: seq<bool>)
      requires |categories| == |initialButtons|
      requires |articleCats| == |articleTitles| == |articleDescriptions| == |initialDisplay|
      requires |initialPages| == |pageArrows|
      ensures Valid()
      ensures buttonCategories == categories && buttons[..] == initialButtons
      ensures articleCategories == articleCats && titles == articleTitles && descriptions == articleDescriptions
      ensures display[..] == initialDisplay && pages[..] == initialPages && arrows == pageArrows
      ensures fresh(buttons) && fresh(display) && fresh(pages)
    {
      buttonCategories := categories;
      buttons := new bool[|initialButtons|](i requires 0 <= i < |initialButtons| => initialButtons[i]);
      articleCategories := articleCats;
      titles := articleTitles;
      descriptions := articleDescriptions;
      display := new string[|initialDisplay|](i requires 0 <= i < |initialDisplay| => initialDisplay[i]);
      pages := new bool[|initialPages|](i requires 0 <= i < |initialPages| => initialPages[i]);
      arrows := pageArrows;
    }

    /** A click on the filter button `b`. */
    method OnFilterClick(b: nat)
      requires Valid() && b < buttons.Length
      modifies buttons, display
      ensures buttons[..] == OnlyAt(buttons.Length, b)
      ensures display[..] == FilterDisplay(articleCategories, buttonCategories[b])
    {
      var category := buttonCategories[b];
      SetOnlyActive(buttons, b);
      for i := 0 to display.Length
        invariant forall j :: 0 <= j < i ==> display[j] == FilterDisplay(articleCategories, category)[j]
        invariant buttons[..] == OnlyAt(buttons.Length, b)
      {
        var articleCategory := articleCategories[i];
        if category == "all" || articleCategory == category {
          display[i] := "flex";
        } else {
          display[i] := "none";
        }
      }
    }

    /** The `input` listener of the search box. */
    method OnSearchInput(term: string)
      requires Valid()
      modifies display
      ensures display[..] == SearchDisplay(titles, descriptions, term, "flex")
    {
      var searchTerm := ToLower(term);
      for i := 0 to display.Length
        invariant forall j :: 0 <= j < i ==> display[j] == SearchDisplay(titles, descriptions, term, "flex")[j]
      {
        var title := ToLower(titles[i]);
        var description := ToLower(descriptions[i]);
        if Contains(title, searchTerm) || Contains(description, searchTerm) {
          display[i] := "flex";
        } else {
          display[i] := "none";
        }
      }
    }

    /** A click on the page button `k`. */
    method OnPageClick(k: nat)
      requires Valid() && k < pages.Length
      modifies pages
      ensures pages[..] == PageClick(old(pages[..]), arrows, k)
    {
      if !pages[k] && !arrows[k] {
        SetOnlyActive(pages, k);
      }
    }
  }
}

/**
 * What the category filters, accordions and button groups of every page share:
 * lists of `active` class flags where one element is singled out, and the two
 * visibility predicates (category tag and text search).
 */
module Selection {
  import opened JsString

  /** At most one flag of the list is set. */
  predicate AtMostOneActive(flags: seq<bool>) {
    forall i, j :: 0 <= i < |flags| && 0 <= j < |flags| && flags[i] && flags[j] ==> i == j
  }

  /** `n` flags of which only the one at `k` is set (none when `k` is out of range). */
  function OnlyAt(n: nat, k: int): (r: seq<bool>)
    ensures |r| == n && forall i :: 0 <= i < n ==> r[i] == (i == k)
  {
    seq(n, i => i == k)
  }

  /** `n` cleared flags. */
  function NoneActive(n: nat): (r: seq<bool>)
    ensures |r| == n && forall i :: 0 <= i < n ==> !r[i]
  {
    seq(n, i => false)
  }

  lemma OnlyAtHasAtMostOne(n: nat, k: int)
    ensures AtMostOneActive(OnlyAt(n, k)) && AtMostOneActive(NoneActive(n))
  {
  }

  /** Removes `active` from every element of the list, then adds it to element `k`. */
  method SetOnlyActive(flags: array<bool>, k: nat)
    requires k < flags.Length
    modifies flags
    ensures flags[..] == OnlyAt(flags.Length, k)
  {
    for i := 0 to flags.Length
      invariant forall j :: 0 <= j < i ==> !flags[j]
    {
      flags[i] := false;
    }
    flags[k] := true;
  }

  /** The category filter of the service cards and blog articles:
      `tag === 'all' || category === tag`. */
  predicate CategoryMatches(tag: string, category: string) {
    tag == "all" || category == tag
  }

  /** The text search of the blog and the FAQ: the term, lower-cased, occurs in
      the lower-cased first or second text. */
  predicate TextMatches(term: string, first: string, second: string) {
    var t := ToLower(term);
    Contains(ToLower(first), t) || Contains(ToLower(second), t)
  }

  /** An empty search term matches every element, since every string includes ''. */
  lemma EmptyTermMatchesEverything(first: string, second: string)
    ensures TextMatches("", first, second)
  {
    ContainsEmpty(ToLower(first));
  }

  /** The search is case-insensitive: a term matches exactly as its lower-case form does. */
  lemma TextMatchesIgnoresCase(term: string, first: string, second: string)
    ensures TextMatches(term, first, second) == TextMatches(ToLower(term), first, second)
  {
    ToLowerIdempotent(term);
  }

  /** The search matches exactly when the lower-cased term occurs at some
      position of one of the lower-cased texts. */
  lemma TextMatchesIffOccurs(term: string, first: string, second: string)
    ensures TextMatches(term, first, second) <==>
      Occurs(ToLower(first), ToLower(term)) || Occurs(ToLower(second), ToLower(term))
  {
    ContainsIffOccurs(ToLower(first), ToLower(term));
    ContainsIffOccurs(ToLower(second), ToLower(term));
  }

  /** The `style.display` of each element after a search for `term`: `shown`
      where the term matches its two texts, 'none' elsewhere. */
  function SearchDisplay(firsts: seq<string>, seconds: seq<string>, term: string, shown: string): (r: seq<string>)
    requires |firsts| == |seconds|
    ensures |r| == |firsts|
  {
    seq(|firsts|, i requires 0 <= i < |firsts| =>
      if TextMatches(term, firsts[i], seconds[i]) then shown else "none")
  }
}

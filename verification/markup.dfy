/**
 * The element tree that the modal templates produce when their HTML string is
 * assigned to `innerHTML`. Only tags, class attributes, image sources, text
 * and the nesting are kept; white space between tags is not.
 */
module Markup {

  datatype Node =
    | Element(tag: string, cls: string, children: seq<Node>)
    | Image(src: string, alt: string, cls: string)
    | Text(text: string)

  /** The element `<li>item</li>`. */
  function ListItem(item: string): Node {
    Element("li", "", [Text(item)])
  }

  /** One `<li>` element per item, holding the item's text, in order. */
  function ListItems(items: seq<string>): (r: seq<Node>)
    ensures |r| == |items|
  {
    if items == [] then [] else [ListItem(items[0])] + ListItems(items[1..])
  }

  /** Reads back, in order, the text of every `<li>` child holding a single text node. */
  function ItemTexts(nodes: seq<Node>): seq<string> {
    if nodes == [] then []
    else
      var n := nodes[0];
      (if n.Element? && n.tag == "li" && |n.children| == 1 && n.children[0].Text?
       then [n.children[0].text] else [])
      + ItemTexts(nodes[1..])
  }

  /** The k-th rendered list item is the `<li>` of the k-th entry. */
  lemma {:induction false} ListItemsAt(items: seq<string>, k: nat)
    requires k < |items|
    ensures ListItems(items)[k] == ListItem(items[k])
  {
    if k > 0 {
      ListItemsAt(items[1..], k - 1);
    }
  }

  /** A rendered list has one `<li>` per entry, in the entries' order: reading
      the items back gives the entries. */
  lemma {:induction false} ItemTextsOfListItems(items: seq<string>)
    ensures ItemTexts(ListItems(items)) == items
  {
    if items != [] {
      var r := ListItems(items);
      assert r[1..] == ListItems(items[1..]);
      ItemTextsOfListItems(items[1..]);
    }
  }
}

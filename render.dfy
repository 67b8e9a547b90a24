/**
 * The output tree built by `Contributor.build` and `ContributorsRepository.build`.
 *
 * The docutils node classes are represented by one datatype: an element with a
 * tag and children (bullet_list, list_item, paragraph), a reference with its
 * text and target, and a text leaf. `node += child` appends `child` to the
 * element's children (Append). ReadBack is the inverse of rendering: it
 * recovers the login, URL and count of every item, which shows that a rendered
 * list carries exactly the ranked contributors, in order.
 */
module Render {
  import opened Wrappers
  import opened Ranking
  import Strings

  datatype Tag = BulletList | ListItem | Paragraph

  datatype Node =
    | Element(tag: Tag, children: seq<Node>)
    | Reference(text: string, refuri: string)
    | TextNode(data: string)

  /** `parent += child` on a docutils element. */
  function Append(parent: Node, child: Node): (r: Node)
    requires parent.Element?
    ensures r.Element? && r.tag == parent.tag
    ensures |r.children| == |parent.children| + 1 && r.children[|parent.children|] == child
    ensures r.children[..|parent.children|] == parent.children
  {
    Element(parent.tag, parent.children + [child])
  }

  /** The unit word: singular exactly when the count is 1. */
  function Unit(n: int): (u: string)
    ensures u == "contribution" <==> n == 1
    ensures u == "contributions" <==> n != 1
  {
    if n != 1 then "contributions" else "contribution"
  }

  /** The text that follows the link: a dash, the count in decimal, then the unit word. */
  function CountText(n: int): string
  {
    " - " + Strings.IntToString(n) + " " + Unit(n)
  }

  /** The paragraph `Contributor.build` returns. */
  function ContributorParagraph(c: Contributor): Node
  {
    Element(Paragraph, [Reference(c.login, c.url), TextNode(CountText(c.contributions))])
  }

  function Item(c: Contributor): Node
  {
    Element(ListItem, [ContributorParagraph(c)])
  }

  /** One list item per ranked contributor, in ranking order. */
  function Items(ranked: seq<Contributor>): (r: seq<Node>)
    ensures |r| == |ranked|
    ensures forall i :: 0 <= i < |ranked| ==> r[i] == Item(ranked[i])
  {
    if ranked == [] then [] else [Item(ranked[0])] + Items(ranked[1..])
  }

  lemma ItemsSnoc(ranked: seq<Contributor>, c: Contributor)
    ensures Items(ranked + [c]) == Items(ranked) + [Item(c)]
  {
    var longer, appended := Items(ranked + [c]), Items(ranked) + [Item(c)];
    forall i | 0 <= i < |longer|
      ensures longer[i] == appended[i]
    {
      if i < |ranked| {
        assert (ranked + [c])[i] == ranked[i];
      }
    }
  }

  lemma ItemsPrefixStep(ranked: seq<Contributor>, i: nat)
    requires i < |ranked|
    ensures Items(ranked[..i + 1]) == Items(ranked[..i]) + [Item(ranked[i])]
  {
    assert ranked[..i + 1] == ranked[..i] + [ranked[i]];
    ItemsSnoc(ranked[..i], ranked[i]);
  }

  /** The bullet list `ContributorsRepository.build` returns. */
  function RenderList(ranked: seq<Contributor>): Node
  {
    Element(BulletList, Items(ranked))
  }

  /** `Contributor.build`: a paragraph holding a reference, then the count text. */
  method BuildContributor(c: Contributor) returns (p: Node)
    ensures p == ContributorParagraph(c)
    ensures p.Element? && p.tag == Paragraph && |p.children| == 2
    ensures p.children[0] == Reference(c.login, c.url)
    ensures p.children[1] == TextNode(CountText(c.contributions))
  {
    p := Element(Paragraph, []);
    p := Append(p, Reference(c.login, c.url));
    p := Append(p, TextNode(" - " + Strings.IntToString(c.contributions) + " " +
                            (if c.contributions != 1 then "contributions" else "contribution")));
  }

  /** `ContributorsRepository.build`: one list item per ranked contributor, in order. */
  method BuildRepository(ranked: seq<Contributor>) returns (list: Node)
    ensures list == RenderList(ranked)
    ensures list.Element? && list.tag == BulletList && |list.children| == |ranked|
    ensures forall i :: 0 <= i < |ranked| ==>
      list.children[i] == Element(ListItem, [ContributorParagraph(ranked[i])])
  {
    list := Element(BulletList, []);
    for i := 0 to |ranked|
      invariant list.Element? && list.tag == BulletList
      invariant list.children == Items(ranked[..i])
    {
      var item := Element(ListItem, []);
      var p := BuildContributor(ranked[i]);
      item := Append(item, p);
      assert item == Item(ranked[i]);
      list := Append(list, item);
      ItemsPrefixStep(ranked, i);
    }
    assert ranked[..|ranked|] == ranked;
  }

  // ---- reading a rendered list back ----

  /** Index of the first `ch` in `s`, or `|s|` when there is none. */
  function IndexOf(s: string, ch: char): (k: nat)
    ensures k <= |s|
    ensures forall i :: 0 <= i < k ==> s[i] != ch
    ensures k < |s| ==> s[k] == ch
  {
    if s == [] then 0 else if s[0] == ch then 0 else 1 + IndexOf(s[1..], ch)
  }

  /** The count a text `' - N unit'` states, when the unit agrees with N. */
  function ReadCount(s: string): Option<int>
  {
    if |s| < 3 || s[..3] != " - " then None
    else
      var rest := s[3..];
      var k := IndexOf(rest, ' ');
      if k == |rest| then None
      else match Strings.ParseInt(rest[..k])
        case None => None
        case Some(n) => if rest[k + 1..] == Unit(n) then Some(n) else None
  }

  function ReadItem(n: Node): Option<Contributor>
  {
    if n.Element? && n.tag == ListItem && |n.children| == 1
       && n.children[0].Element? && n.children[0].tag == Paragraph
       && |n.children[0].children| == 2
       && n.children[0].children[0].Reference? && n.children[0].children[1].TextNode?
    then
      var link, text := n.children[0].children[0], n.children[0].children[1];
      match ReadCount(text.data)
      case None => None
      case Some(k) => Some(Contributor(link.text, link.refuri, k))
    else None
  }

  function ReadItems(items: seq<Node>): Option<seq<Contributor>>
  {
    if items == [] then Some([])
    else match (ReadItem(items[0]), ReadItems(items[1..]))
      case (Some(c), Some(cs)) => Some([c] + cs)
      case _ => None
  }

  /** The contributors a rendered bullet list shows, in list order. */
  function ReadBack(n: Node): Option<seq<Contributor>>
  {
    if n.Element? && n.tag == BulletList then ReadItems(n.children) else None
  }

  lemma {:induction false} IndexOfAfter(a: string, b: string, ch: char)
    requires ch !in a
    ensures IndexOf(a + [ch] + b, ch) == |a|
  {
    if a != [] {
      assert (a + [ch] + b)[1..] == a[1..] + [ch] + b;
      IndexOfAfter(a[1..], b, ch);
    }
  }

  /** Reading `' - ' + digits + ' ' + unit` splits at the first space after the dash. */
  lemma ReadCountParts(digits: string, unit: string)
    requires ' ' !in digits
    ensures ReadCount(" - " + digits + " " + unit)
         == match Strings.ParseInt(digits)
            case None => None
            case Some(n) => if unit == Unit(n) then Some(n) else None
  {
    var s := " - " + digits + " " + unit;
    var rest := digits + " " + unit;
    assert s[..3] == " - " && s[3..] == rest;
    IndexOfAfter(digits, unit, ' ');
    assert rest[..|digits|] == digits;
    assert rest[|digits| + 1..] == unit;
  }

  lemma CountTextRoundTrip(n: int)
    ensures ReadCount(CountText(n)) == Some(n)
  {
    ReadCountParts(Strings.IntToString(n), Unit(n));
    Strings.IntToStringRoundTrip(n);
  }

  /** The text after the link determines the count: different counts never render alike. */
  lemma CountTextInjective(a: int, b: int)
    ensures CountText(a) == CountText(b) <==> a == b
  {
    CountTextRoundTrip(a);
    CountTextRoundTrip(b);
  }

  lemma ReadItemRoundTrip(c: Contributor)
    ensures ReadItem(Item(c)) == Some(c)
  {
    CountTextRoundTrip(c.contributions);
  }

  lemma {:induction false} ReadItemsRoundTrip(ranked: seq<Contributor>)
    ensures ReadItems(Items(ranked)) == Some(ranked)
  {
    if ranked != [] {
      assert Items(ranked)[1..] == Items(ranked[1..]);
      ReadItemRoundTrip(ranked[0]);
      ReadItemsRoundTrip(ranked[1..]);
      ReadItemsCons(Items(ranked), ranked[0], ranked[1..]);
      assert ranked == [ranked[0]] + ranked[1..];
    }
  }

  lemma ReadItemsCons(items: seq<Node>, c: Contributor, cs: seq<Contributor>)
    requires items != [] && ReadItem(items[0]) == Some(c) && ReadItems(items[1..]) == Some(cs)
    ensures ReadItems(items) == Some([c] + cs)
  {
  }

  /**
   * Rendering is lossless: the list holds one item per ranked contributor, in
   * the same order, each showing that contributor's login, URL and count. An
   * empty ranking renders as an empty bullet list.
   */
  lemma RenderReadBack(ranked: seq<Contributor>)
    ensures ReadBack(RenderList(ranked)) == Some(ranked)
    ensures ranked == [] ==> RenderList(ranked) == Element(BulletList, [])
  {
    ReadItemsRoundTrip(ranked);
  }
}

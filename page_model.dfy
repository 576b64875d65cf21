/** The page block: the root of a document, a block of flavour "page" with a
    title string that its projections render in place of a text. */
module PageBlock {
  import opened Js
  import opened Blocks

  /** The properties a page block is created from. */
  datatype PageProps = PageProps(id: Option<string>, title: Option<string>)

  /** A page block: the base block it extends, and its title. */
  datatype PageBlockModel = PageBlockModel(base: Block, title: string)

  const PageFlavour := "page"

  /** `new PageBlockModel(store, props)`: the base block with the given id and
      no children or text, flavour "page", and the title given or "" when the
      properties have none (`??` keeps an empty title as given). */
  function NewPage(props: PageProps): (p: PageBlockModel)
    ensures p.base.flavour == PageFlavour && p.base.id == props.id
    ensures p.base.children == [] && p.base.text.NoText?
    ensures props.title.Some? ==> p.title == props.title.value
    ensures props.title.None? ==> p.title == ""
  {
    PageBlockModel(Block(props.id, PageFlavour, [], NoText), props.title.GetOr(""))
  }

  /** `block2html` of a page: the whole title and `childText` in a `div`;
      `begin` and `end` are ignored. */
  function PageBlock2Html(p: PageBlockModel, childText: string, begin: Option<int>, end: Option<int>): (r: string)
    ensures |r| == |p.title| + |childText| + 11
    ensures r[..5] == "<div>" && r[|r| - 6..] == "</div>"
    ensures r[5..|r| - 6] == p.title + childText
  {
    var r := "<div>" + p.title + childText + "</div>";
    assert r[..5] == "<div>" && r[|r| - 6..] == "</div>";
    assert r[5..|r| - 6] == p.title + childText;
    r
  }

  /** `block2Text` of a page: the title sliced with `slice(begin || 0, end)`,
      followed by `childText`. */
  function PageBlock2Text(p: PageBlockModel, childText: string, begin: Option<int>, end: Option<int>): (r: string)
    ensures |childText| <= |r| && r[|r| - |childText|..] == childText
    ensures r[..|r| - |childText|] == Slice(p.title, OrZero(begin), end)
  {
    var text := Slice(p.title, OrZero(begin), end);
    var r := text + childText;
    assert r[|r| - |childText|..] == childText;
    r
  }

  /** Neither projection of a page reads the base block: two pages with the
      same title project alike, whatever their texts and children. */
  lemma PageProjectionsIgnoreBase(p: PageBlockModel, q: PageBlockModel, childText: string, begin: Option<int>, end: Option<int>)
    requires p.title == q.title
    ensures PageBlock2Html(p, childText, begin, end) == PageBlock2Html(q, childText, begin, end)
    ensures PageBlock2Text(p, childText, begin, end) == PageBlock2Text(q, childText, begin, end)
  {
  }

  /** The markup of a page is its unsliced text in a `div`, whatever the
      bounds. */
  lemma PageHtmlWrapsFullText(p: PageBlockModel, childText: string, begin: Option<int>, end: Option<int>)
    ensures PageBlock2Html(p, childText, begin, end) == "<div>" + PageBlock2Text(p, childText, None, None) + "</div>"
  {
    var t := PageBlock2Text(p, childText, None, None);
    assert Slice(p.title, 0, None) == p.title;
    assert t[..|t| - |childText|] == p.title;
    assert t == t[..|t| - |childText|] + t[|t| - |childText|..];
  }

  /** A new page without a title renders an empty title. */
  lemma UntitledPageRendersChildrenOnly(id: Option<string>, childText: string, begin: Option<int>, end: Option<int>)
    ensures PageBlock2Html(NewPage(PageProps(id, None)), childText, begin, end) == "<div>" + childText + "</div>"
    ensures PageBlock2Text(NewPage(PageProps(id, None)), childText, begin, end) == childText
  {
    var p := NewPage(PageProps(id, None));
    var t := PageBlock2Text(p, childText, begin, end);
    assert t[..|t| - |childText|] == [];
    assert t == t[..|t| - |childText|] + t[|t| - |childText|..];
  }
}

/** The block tree and its projection to markup and to plain text. A block
    owns its children and, optionally, a text; the projections only read
    them. The text is seen here by its content, a snapshot of the shared
    text at the time of the projection. */
module Blocks {
  import opened Js
  import opened Yjs
  import opened TextAdapter

  /** What a block's `text` holds: nothing, a split placeholder, or a live
      text with the given content. */
  datatype BlockText = NoText | Prelim(placeholder: PrelimText) | Live(content: seq<Glyph>)

  datatype Block = Block(id: Option<string>, flavour: string, children: seq<Block>, text: BlockText)

  /** `r` is `b` or lies below it. */
  predicate Within(r: Block, b: Block)
    decreases b
  {
    r == b || exists i :: 0 <= i < |b.children| && Within(r, b.children[i])
  }

  /** `firstChild()`: none for a block without children, else its first. */
  function FirstChild(b: Block): (r: Option<Block>)
    ensures r.None? <==> b.children == []
    ensures r.Some? ==> r.value == b.children[0]
  {
    if |b.children| == 0 then None else Some(b.children[0])
  }

  /** `lastChild()`: the block itself when it has no children, otherwise the
      last child's `lastChild()`. The result has no children and lies within
      the block, below its last child when there is one. */
  function LastChild(b: Block): (r: Block)
    ensures r.children == []
    ensures Within(r, b)
    ensures b.children != [] ==> Within(r, b.children[|b.children| - 1])
    decreases b
  {
    if |b.children| == 0 then b else LastChild(b.children[|b.children| - 1])
  }

  /** A block is its own `lastChild()` exactly when `firstChild()` finds
      nothing. */
  lemma LastChildIsSelfIffNoFirst(b: Block)
    ensures LastChild(b) == b <==> FirstChild(b).None?
  {
  }

  /** `lastChild()` of the result is the result. */
  lemma LastChildIdempotent(b: Block)
    ensures LastChild(LastChild(b)) == LastChild(b)
  {
  }

  // ---------------------------------------------------------------------
  // _deltaLeaf2Html
  // ---------------------------------------------------------------------

  /** The truthiness of an attribute value. */
  predicate ValueTruthy(v: AttrValue) {
    match v
    case Flag(b) => b
    case Str(s) => s != ""
  }

  /** An attribute value as a template literal prints it. */
  function Show(v: AttrValue): string {
    match v
    case Flag(b) => if b then "true" else "false"
    case Str(s) => s
  }

  /** `attributes[key]` is truthy; an absent key is `undefined`, falsy. */
  predicate AttrTruthy(a: Attrs, key: string) {
    key in a && ValueTruthy(a[key])
  }

  /** `_deltaLeaf2Html(leaf)`: the run's text, wrapped in the tag of the
      first truthy attribute among bold, italic, underline, code,
      strikethrough and link, in that order; a link's value becomes the
      `href`. */
  function DeltaLeaf2Html(leaf: Run): (r: string)
    ensures leaf.attributes.None? ==> r == leaf.insert
    ensures r == leaf.insert || (|r| > |leaf.insert| && r[0] == '<' && r[|r| - 1] == '>')
  {
    var text := leaf.insert;
    if leaf.attributes.None? then text
    else
      var a := leaf.attributes.value;
      if AttrTruthy(a, "bold") then "<strong>" + text + "</strong>"
      else if AttrTruthy(a, "italic") then "<em>" + text + "</em>"
      else if AttrTruthy(a, "underline") then "<u>" + text + "</u>"
      else if AttrTruthy(a, "code") then "<code>" + text + "</code>"
      else if AttrTruthy(a, "strikethrough") then "<s>" + text + "</s>"
      else if AttrTruthy(a, "link") then "<a href='" + Show(a["link"]) + "'>" + text + "</a>"
      else text
  }

  /** The formats a leaf is rendered with, highest precedence first. */
  const Precedence: seq<string> := ["bold", "italic", "underline", "code", "strikethrough", "link"]

  /** The first key of `keys` whose value in `a` is truthy. */
  function FirstTruthy(a: Attrs, keys: seq<string>): (r: Option<nat>)
    ensures r.Some? ==> r.value < |keys| && AttrTruthy(a, keys[r.value])
    ensures r.Some? ==> forall j :: 0 <= j < r.value ==> !AttrTruthy(a, keys[j])
    ensures r.None? ==> forall j :: 0 <= j < |keys| ==> !AttrTruthy(a, keys[j])
  {
    if keys == [] then None
    else if AttrTruthy(a, keys[0]) then Some(0)
    else match FirstTruthy(a, keys[1..])
      case None => None
      case Some(j) => Some(j + 1)
  }

  /** The opening tag for a format. */
  function OpenTag(key: string, a: Attrs): string
    requires key in a
  {
    match key
    case "bold" => "<strong>"
    case "italic" => "<em>"
    case "underline" => "<u>"
    case "code" => "<code>"
    case "strikethrough" => "<s>"
    case _ => "<a href='" + Show(a[key]) + "'>"
  }

  /** The closing tag for a format. */
  function CloseTag(key: string): string {
    match key
    case "bold" => "</strong>"
    case "italic" => "</em>"
    case "underline" => "</u>"
    case "code" => "</code>"
    case "strikethrough" => "</s>"
    case _ => "</a>"
  }

  /** A leaf is rendered as its text alone, or wrapped in exactly one tag:
      that of the highest-precedence truthy format. Tags never stack. */
  lemma LeafHtmlIsOneTag(leaf: Run)
    ensures leaf.attributes.None? ==> DeltaLeaf2Html(leaf) == leaf.insert
    ensures leaf.attributes.Some? ==>
      var a := leaf.attributes.value;
      match FirstTruthy(a, Precedence)
      case None => DeltaLeaf2Html(leaf) == leaf.insert
      case Some(j) => DeltaLeaf2Html(leaf) == OpenTag(Precedence[j], a) + leaf.insert + CloseTag(Precedence[j])
  {
    if leaf.attributes.Some? {
      var a := leaf.attributes.value;
      var f := FirstTruthy(a, Precedence);
      assert Precedence[0] == "bold" && Precedence[1] == "italic" && Precedence[2] == "underline";
      assert Precedence[3] == "code" && Precedence[4] == "strikethrough" && Precedence[5] == "link";
      if AttrTruthy(a, "bold") {
        assert f == Some(0);
      } else if AttrTruthy(a, "italic") {
        assert f == Some(1);
      } else if AttrTruthy(a, "underline") {
        assert f == Some(2);
      } else if AttrTruthy(a, "code") {
        assert f == Some(3);
      } else if AttrTruthy(a, "strikethrough") {
        assert f == Some(4);
      } else if AttrTruthy(a, "link") {
        assert f == Some(5);
      } else {
        assert f == None;
      }
    }
  }

  // ---------------------------------------------------------------------
  // block2html, block2Text
  // ---------------------------------------------------------------------

  /** The runs rendered one by one and concatenated from the left. */
  function RenderDelta(d: seq<Run>): (r: string)
    ensures |r| >= |RunsText(d)|
  {
    if d == [] then ""
    else
      var n := |d| - 1;
      assert d == d[..n] + [d[n]];
      RunsTextAppend(d[..n], [d[n]]);
      assert RunsText([d[n]]) == d[n].insert + RunsText([]);
      RenderDelta(d[..n]) + DeltaLeaf2Html(d[n])
  }

  /** Unformatted runs render as the text they spell. */
  lemma {:induction false} PlainRenderIsText(d: seq<Run>)
    requires forall i :: 0 <= i < |d| ==> d[i].attributes.None?
    ensures RenderDelta(d) == RunsText(d)
    decreases |d|
  {
    if d != [] {
      var n := |d| - 1;
      PlainRenderIsText(d[..n]);
      assert d == d[..n] + [d[n]];
      RunsTextAppend(d[..n], [d[n]]);
      assert RunsText([d[n]]) == d[n].insert + RunsText([]);
    }
  }

  /** `block2html(childText, _, _, begin?, end?)`: the block's text sliced by
      `sliceToDelta(begin || 0, end)` and rendered run by run, before
      `childText`. Without a text the `reduce` is called on `undefined`; a
      placeholder's `sliceToDelta` throws. */
  function Block2Html(b: Block, childText: string, begin: Option<int>, end: Option<int>): (r: Result<string>)
    ensures b.text.NoText? ==> r == Throws(TypeError)
    ensures b.text.Prelim? ==> r == Throws(UnsupportedOperation(UnsupportedMessage + "sliceToDelta"))
    ensures b.text.Live? ==> r.Ok? && |childText| <= |r.value| && r.value[|r.value| - |childText|..] == childText
  {
    match b.text
    case NoText => Throws(TypeError)
    case Prelim(p) => Throws(p.Invoke(SliceToDeltaOp).error)
    case Live(c) =>
      var html := RenderDelta(SliceOfDelta(ToDelta(c), OrZero(begin), end)) + childText;
      assert html[|html| - |childText|..] == childText;
      Ok(html)
  }

  /** What `String(text)` gives: a live text's characters; a placeholder
      has no `toString` of its own and prints as an object. */
  function TextString(t: BlockText): string {
    match t
    case NoText => ""
    case Prelim(_) => "[object Object]"
    case Live(c) => Chars(c)
  }

  /** `block2Text(childText, begin?, end?)`: the block's string sliced with
      `slice(begin || 0, end)`, before `childText`. */
  function Block2Text(b: Block, childText: string, begin: Option<int>, end: Option<int>): (r: string)
    ensures b.text.NoText? ==> r == childText
    ensures |childText| <= |r| && r[|r| - |childText|..] == childText
    ensures r[..|r| - |childText|] == Slice(TextString(b.text), OrZero(begin), end)
  {
    var text := Slice(TextString(b.text), OrZero(begin), end);
    var r := text + childText;
    assert r[|r| - |childText|..] == childText;
    r
  }

  /** An unformatted text is one run (none when empty). */
  lemma {:induction false} PlainDelta(c: seq<Glyph>)
    requires forall i :: 0 <= i < |c| ==> c[i].attrs == map[]
    ensures ToDelta(c) == if c == [] then [] else [Run(Chars(c), None)]
    decreases |c|
  {
    if c != [] {
      PlainDelta(c[1..]);
      assert AttributesOf(c[0].attrs) == None;
      if c[1..] != [] {
        assert Chars(c) == [c[0].ch] + Chars(c[1..]);
      } else {
        assert Chars(c) == [c[0].ch];
      }
    }
  }

  /** Slicing a single unformatted run by the walk agrees with slicing its
      string, for a non-negative `begin` and an `end` absent or positive. */
  lemma OneRunSlice(s: string, begin: int, end: Option<int>)
    requires 0 <= begin && (end.None? || end.value > 0)
    ensures RenderDelta(SliceOfDelta([Run(s, None)], begin, end)) == Slice(s, begin, end)
  {
    var d := [Run(s, None)];
    var w := SliceOfDelta(d, begin, end);
    assert RunsText(d) == s + RunsText([]);
    if end.Some? && begin >= end.value {
      assert w == [];
    } else if begin < 1 && end.None? {
      assert w == d;
    } else {
      assert d[0..] == d && d[1..] == [];
      WalkTurn(d, 0, 0, begin, end, false);
      assert w == Emitted(d[0], 0, begin, end, false);
      if end.Some? {
        var cut := CutAtEnd(d[0], 0, end);
        assert cut == Slice(s, 0, end);
        if |s| > begin {
          assert Slice(cut, begin, None) == Slice(s, begin, end);
        }
      }
    }
    assert forall i :: 0 <= i < |w| ==> w[i].attributes.None?;
    PlainRenderIsText(w);
    if end.None? {
      SliceWithoutEnd(d, begin, end);
    } else if w != [] {
      assert RunsText(w) == w[0].insert + RunsText(w[1..]);
    }
  }

  /** For a live, unformatted text the markup is the plain text, as long as
      `begin` is not negative and `end` is absent or positive. */
  lemma PlainBlockHtmlIsText(b: Block, childText: string, begin: Option<int>, end: Option<int>)
    requires b.text.Live? && forall i :: 0 <= i < |b.text.content| ==> b.text.content[i].attrs == map[]
    requires OrZero(begin) >= 0 && (end.None? || end.value > 0)
    ensures Block2Html(b, childText, begin, end) == Ok(Block2Text(b, childText, begin, end))
  {
    var c := b.text.content;
    PlainDelta(c);
    if c == [] {
      assert SliceOfDelta([], OrZero(begin), end) == [];
    } else {
      OneRunSlice(Chars(c), OrZero(begin), end);
    }
  }

  /** `end = 0` is no end for the markup but an empty slice for the text. */
  lemma EndZeroDisagrees()
    ensures var b := Block(None, "paragraph", [], Live(Glyphs("ab", map[])));
            && Block2Html(b, "", None, Some(0)) == Ok("ab")
            && Block2Text(b, "", None, Some(0)) == ""
  {
    var c := Glyphs("ab", map[]);
    PlainDelta(c);
    assert Chars(c) == "ab";
    var d := [Run("ab", None)];
    assert d[..0] == [];
    assert RenderDelta(d) == RenderDelta([]) + "ab";
    assert ToDelta(c) == d;
    assert SliceOfDelta(d, 0, Some(0)) == d;
    assert "ab" + "" == "ab";
    assert RenderDelta(d) == "ab";
    var b := Block(None, "paragraph", [], Live(c));
    assert OrZero(None) == 0;
    assert Block2Html(b, "", None, Some(0)) == Ok(RenderDelta(d) + "");
    assert Slice("ab", 0, Some(0)) == "";
  }
}

/** The shared text primitive (a Y.Text) as the core sees it: a sequence of
    characters, each carrying its formatting attributes, plus the ad hoc `meta`
    marker the text wrapper hangs on it. Conflict resolution between replicas
    is not modelled; the operations below are the primitive's effect on one
    replica's content. */
module Yjs {
  import opened Js

  /** An attribute value: a flag (`bold: true`) or a string (`link: '…'`). */
  datatype AttrValue = Flag(b: bool) | Str(s: string)

  type Attrs = map<string, AttrValue>

  /** One character of the text with the attributes it is formatted with. */
  datatype Glyph = Glyph(ch: char, attrs: Attrs)

  /** An entry of `toDelta()`: a run of text sharing one attribute map; the
      map is absent when it would be empty. */
  datatype Run = Run(insert: string, attributes: Option<Attrs>)

  /** A delta operation, as change events and the editing widget carry them. */
  datatype Op =
    | Insert(text: string, attributes: Option<Attrs>)
    | Retain(n: nat, attributes: Option<Attrs>)
    | Delete(n: nat)

  /** The one-shot marker the text wrapper leaves on the primitive after a
      structural mutation (`{split: true}`, `{join: true}`, …). */
  datatype Marker = Unset | SplitMark | JoinMark | FormatMark | DeleteMark | ClearMark

  /** A Y.Text instance: replicated content and the `meta` property. */
  class YText {
    var content: seq<Glyph>
    var meta: Marker

    constructor (content: seq<Glyph>)
      ensures this.content == content && meta == Unset
    {
      this.content := content;
      meta := Unset;
    }

    /** `insert(index, text, attributes?)`. */
    method Insert(index: nat, s: string, a: Option<Attrs>)
      requires index <= |content|
      modifies this
      ensures content == InsertAt(old(content), index, s, a) && meta == old(meta)
    {
      content := InsertAt(content, index, s, a);
    }

    /** `delete(index, length)`, stopping at the end of the text. */
    method Delete(index: nat, length: nat)
      modifies this
      ensures content == DeleteRange(old(content), index, length) && meta == old(meta)
    {
      content := DeleteRange(content, index, length);
    }

    /** `format(index, length, attributes)`, stopping at the end of the
        text. */
    method Format(index: nat, length: nat, a: Attrs)
      modifies this
      ensures var n := |old(content)|;
              content == FormatRange(old(content), Min(index, n), Min(index + length, n), a) && meta == old(meta)
    {
      content := FormatRange(content, Min(index, |content|), Min(index + length, |content|), a);
    }

    /** `applyDelta(ops)`. */
    method ApplyDelta(ops: seq<Op>)
      modifies this
      ensures content == ApplyOps(old(content), ops) && meta == old(meta)
    {
      content := ApplyOps(content, ops);
    }

    /** `clone()`: a fresh, unattached text built by applying this text's
        delta to an empty one; the marker is not copied. */
    method Clone() returns (y: YText)
      ensures fresh(y) && y.content == content && y.meta == Unset
    {
      y := new YText([]);
      y.ApplyDelta(InsertOps(ToDelta(content)));
      DeltaRoundTrip(content);
    }
  }

  /** `toString()`: the characters, formatting dropped. */
  function Chars(c: seq<Glyph>): (s: string)
    ensures |s| == |c|
    ensures forall i :: 0 <= i < |c| ==> s[i] == c[i].ch
  {
    seq(|c|, i requires 0 <= i < |c| => c[i].ch)
  }

  /** The glyphs of `s`, every one formatted with `a`. */
  function Glyphs(s: string, a: Attrs): (c: seq<Glyph>)
    ensures |c| == |s|
    ensures forall i :: 0 <= i < |s| ==> c[i] == Glyph(s[i], a)
  {
    seq(|s|, i requires 0 <= i < |s| => Glyph(s[i], a))
  }

  /** The attributes of a delta entry: absent for an empty map. */
  function AttributesOf(a: Attrs): Option<Attrs> {
    if a == map[] then None else Some(a)
  }

  /** `toDelta()`: the content cut into maximal runs of equal formatting. */
  function ToDelta(c: seq<Glyph>): seq<Run> {
    if c == [] then []
    else
      var rest := ToDelta(c[1..]);
      var a := AttributesOf(c[0].attrs);
      if rest != [] && rest[0].attributes == a then [Run([c[0].ch] + rest[0].insert, a)] + rest[1..]
      else [Run([c[0].ch], a)] + rest
  }

  /** The text a delta spells out. */
  function RunsText(d: seq<Run>): string {
    if d == [] then "" else d[0].insert + RunsText(d[1..])
  }

  /** The content a delta describes, run by run. */
  function Expand(d: seq<Run>): seq<Glyph> {
    if d == [] then [] else Glyphs(d[0].insert, d[0].attributes.GetOr(map[])) + Expand(d[1..])
  }

  lemma RunsTextAppend(d: seq<Run>, e: seq<Run>)
    ensures RunsText(d + e) == RunsText(d) + RunsText(e)
  {
    if d != [] {
      assert (d + e)[1..] == d[1..] + e;
      RunsTextAppend(d[1..], e);
    } else {
      assert d + e == e;
    }
  }

  lemma {:induction false} ExpandChars(d: seq<Run>)
    ensures Chars(Expand(d)) == RunsText(d)
  {
    if d != [] {
      ExpandChars(d[1..]);
      var g := Glyphs(d[0].insert, d[0].attributes.GetOr(map[]));
      assert Chars(g + Expand(d[1..])) == Chars(g) + Chars(Expand(d[1..]));
      assert Chars(g) == d[0].insert;
    }
  }

  /** `toDelta()` loses nothing: expanding its runs gives back the content. */
  lemma {:induction false} ToDeltaExpands(c: seq<Glyph>)
    ensures Expand(ToDelta(c)) == c
  {
    if c != [] {
      ToDeltaExpands(c[1..]);
      var rest := ToDelta(c[1..]);
      var a := AttributesOf(c[0].attrs);
      assert a.GetOr(map[]) == c[0].attrs;
      if rest != [] && rest[0].attributes == a {
        var r := Run([c[0].ch] + rest[0].insert, a);
        assert Glyphs(r.insert, c[0].attrs) == [c[0]] + Glyphs(rest[0].insert, c[0].attrs);
        assert ([r] + rest[1..])[1..] == rest[1..];
      } else {
        assert ([Run([c[0].ch], a)] + rest)[1..] == rest;
      }
    }
  }

  /** The runs of `toDelta()` spell the text out exactly. */
  lemma ToDeltaText(c: seq<Glyph>)
    ensures RunsText(ToDelta(c)) == Chars(c)
  {
    ToDeltaExpands(c);
    ExpandChars(ToDelta(c));
  }

  /** Every run of `toDelta()` is non-empty, carries either no map or a
      non-empty one, and differs in formatting from the run after it. */
  lemma {:induction false} ToDeltaMaximal(c: seq<Glyph>)
    ensures forall i :: 0 <= i < |ToDelta(c)| ==> ToDelta(c)[i].insert != []
    ensures forall i :: 0 <= i < |ToDelta(c)| ==> ToDelta(c)[i].attributes != Some(map[])
    ensures forall i :: 0 < i < |ToDelta(c)| ==> ToDelta(c)[i - 1].attributes != ToDelta(c)[i].attributes
  {
    if c != [] {
      ToDeltaMaximal(c[1..]);
    }
  }

  /** The formatting a plain `insert` at `index` takes when no attributes are
      given: that of the character before it. */
  function Inherited(c: seq<Glyph>, index: nat): Attrs
    requires index <= |c|
  {
    if index == 0 then map[] else c[index - 1].attrs
  }

  /** `insert(index, text, attributes?)`. */
  function InsertAt(c: seq<Glyph>, index: nat, s: string, a: Option<Attrs>): (r: seq<Glyph>)
    requires index <= |c|
    ensures |r| == |c| + |s|
    ensures Chars(r) == Chars(c)[..index] + s + Chars(c)[index..]
  {
    var r := c[..index] + Glyphs(s, if a.Some? then a.value else Inherited(c, index)) + c[index..];
    assert Chars(r) == Chars(c)[..index] + s + Chars(c)[index..];
    r
  }

  /** `delete(index, length)`: a span reaching past the end stops at the
      end, and one starting past the end deletes nothing. */
  function DeleteRange(c: seq<Glyph>, index: nat, length: nat): (r: seq<Glyph>)
    ensures var from, to := Min(index, |c|), Min(index + length, |c|);
            && |r| == |c| - (to - from)
            && Chars(r) == Chars(c)[..from] + Chars(c)[to..]
            && r[..from] == c[..from] && r[from..] == c[to..]
  {
    var from, to := Min(index, |c|), Min(index + length, |c|);
    var r := c[..from] + c[to..];
    assert Chars(r) == Chars(c)[..from] + Chars(c)[to..];
    assert r[..from] == c[..from] && r[from..] == c[to..];
    r
  }

  /** `format(index, length, attributes)`: the span's characters gain the
      given attributes, which override the ones they had. */
  function FormatRange(c: seq<Glyph>, from: nat, to: nat, a: Attrs): (r: seq<Glyph>)
    requires from <= to <= |c|
    ensures |r| == |c| && Chars(r) == Chars(c)
    ensures forall i :: 0 <= i < |c| && !(from <= i < to) ==> r[i] == c[i]
    ensures forall i :: from <= i < to ==> r[i].attrs == c[i].attrs + a
  {
    var r := seq(|c|, i requires 0 <= i < |c| => if from <= i < to then c[i].(attrs := c[i].attrs + a) else c[i]);
    assert forall i :: 0 <= i < |c| ==> Chars(r)[i] == Chars(c)[i];
    r
  }

  /** `applyDelta(ops)`: walk the content with a cursor; a retain formats the
      characters it passes, an insert puts exactly its own attributes (none
      given means none), a delete removes. A retain or a delete that runs past
      the end stops at the end. */
  function ApplyOps(c: seq<Glyph>, ops: seq<Op>): seq<Glyph> {
    ApplyFrom(c, 0, ops)
  }

  function ApplyFrom(c: seq<Glyph>, pos: nat, ops: seq<Op>): seq<Glyph>
    requires pos <= |c|
    decreases |ops|
  {
    if ops == [] then c
    else match ops[0]
      case Insert(s, a) =>
        ApplyFrom(c[..pos] + Glyphs(s, a.GetOr(map[])) + c[pos..], pos + |s|, ops[1..])
      case Retain(n, a) =>
        var to := Min(pos + n, |c|);
        ApplyFrom(if a.Some? then FormatRange(c, pos, to, a.value) else c, to, ops[1..])
      case Delete(n) =>
        var to := Min(pos + n, |c|);
        ApplyFrom(c[..pos] + c[to..], pos, ops[1..])
  }

  /** A delta of `toDelta()` runs as insert operations. */
  function InsertOps(d: seq<Run>): (ops: seq<Op>)
    ensures |ops| == |d|
  {
    seq(|d|, i requires 0 <= i < |d| => Insert(d[i].insert, d[i].attributes))
  }

  /** Inserting a delta's runs at the cursor puts the content they describe
      there, and leaves the cursor after it. */
  lemma InsertOpsCons(d: seq<Run>, ops: seq<Op>)
    requires d != []
    ensures (InsertOps(d) + ops)[0] == Insert(d[0].insert, d[0].attributes)
    ensures (InsertOps(d) + ops)[1..] == InsertOps(d[1..]) + ops
  {
    assert InsertOps(d)[1..] == InsertOps(d[1..]);
  }

  lemma {:induction false} ApplyInsertRuns(c: seq<Glyph>, pos: nat, d: seq<Run>, ops: seq<Op>)
    requires pos <= |c|
    ensures ApplyFrom(c, pos, InsertOps(d) + ops)
         == ApplyFrom(c[..pos] + Expand(d) + c[pos..], pos + |Expand(d)|, ops)
    decreases |d|
  {
    if d == [] {
      assert InsertOps(d) + ops == ops;
      assert c[..pos] + Expand(d) + c[pos..] == c;
    } else {
      var g := Glyphs(d[0].insert, d[0].attributes.GetOr(map[]));
      ApplyInsertRuns(c[..pos] + g + c[pos..], pos + |g|, d[1..], ops);
      ApplyInsertRunsStep(c, pos, d, ops);
    }
  }

  /** One run of `ApplyInsertRuns`: given the claim for the runs after the
      first, it holds for all of them. */
  lemma ApplyInsertRunsStep(c: seq<Glyph>, pos: nat, d: seq<Run>, ops: seq<Op>)
    requires pos <= |c| && d != []
    requires var g := Glyphs(d[0].insert, d[0].attributes.GetOr(map[]));
             var c' := c[..pos] + g + c[pos..];
             ApplyFrom(c', pos + |g|, InsertOps(d[1..]) + ops)
               == ApplyFrom(c'[..pos + |g|] + Expand(d[1..]) + c'[pos + |g|..], pos + |g| + |Expand(d[1..])|, ops)
    ensures ApplyFrom(c, pos, InsertOps(d) + ops)
         == ApplyFrom(c[..pos] + Expand(d) + c[pos..], pos + |Expand(d)|, ops)
  {
    var g := Glyphs(d[0].insert, d[0].attributes.GetOr(map[]));
    var c' := c[..pos] + g + c[pos..];
    var rest := Expand(d[1..]);
    calc {
      ApplyFrom(c, pos, InsertOps(d) + ops);
      { InsertOpsCons(d, ops); ApplyFromInsert(c, pos, InsertOps(d) + ops); }
      ApplyFrom(c', pos + |g|, InsertOps(d[1..]) + ops);
      ApplyFrom(c'[..pos + |g|] + rest + c'[pos + |g|..], pos + |g| + |rest|, ops);
      { InsertSplice(c, pos, g, rest); assert Expand(d) == g + rest; }
      ApplyFrom(c[..pos] + Expand(d) + c[pos..], pos + |Expand(d)|, ops);
    }
  }

  /** An insert at the head of the operations splices its characters in at
      the cursor and moves the cursor past them. */
  lemma ApplyFromInsert(c: seq<Glyph>, pos: nat, ops: seq<Op>)
    requires pos <= |c| && ops != [] && ops[0].Insert?
    ensures ApplyFrom(c, pos, ops)
         == ApplyFrom(c[..pos] + Glyphs(ops[0].text, ops[0].attributes.GetOr(map[])) + c[pos..], pos + |ops[0].text|, ops[1..])
  {
  }

  /** Splicing a run's characters in, then the rest after them, splices the
      whole expansion in. */
  lemma InsertSplice(c: seq<Glyph>, pos: nat, g: seq<Glyph>, rest: seq<Glyph>)
    requires pos <= |c|
    ensures var c' := c[..pos] + g + c[pos..];
            c'[..pos + |g|] + rest + c'[pos + |g|..] == c[..pos] + (g + rest) + c[pos..]
  {
    var c' := c[..pos] + g + c[pos..];
    assert c'[..pos + |g|] == c[..pos] + g;
    assert c'[pos + |g|..] == c[pos..];
  }

  /** Retaining the whole content and then inserting another text's runs
      appends that text, formatting included. */
  lemma AppendByDelta(c: seq<Glyph>, other: seq<Glyph>)
    ensures ApplyOps(c, [Retain(|c|, None)] + InsertOps(ToDelta(other))) == c + other
  {
    var ins := InsertOps(ToDelta(other));
    var ops := [Retain(|c|, None)] + ins;
    assert ops[0] == Retain(|c|, None) && ops[1..] == ins + [];
    var e := Expand(ToDelta(other));
    calc {
      ApplyOps(c, ops);
      ApplyFrom(c, 0, ops);
      ApplyFrom(c, |c|, ins + []);
      { ApplyInsertRuns(c, |c|, ToDelta(other), []); }
      ApplyFrom(c[..|c|] + e + c[|c|..], |c| + |e|, []);
      c[..|c|] + e + c[|c|..];
      { ToDeltaExpands(other); assert c[..|c|] == c && c[|c|..] == []; }
      c + other;
    }
  }

  /** Rebuilding a text from its own delta on an empty text gives it back,
      formatting included. */
  lemma DeltaRoundTrip(c: seq<Glyph>)
    ensures ApplyOps([], InsertOps(ToDelta(c))) == c
  {
    assert InsertOps(ToDelta(c)) == InsertOps(ToDelta(c)) + [];
    ApplyInsertRuns([], 0, ToDelta(c), []);
    ToDeltaExpands(c);
  }

  /** Deleting what was just inserted restores the content. */
  lemma InsertThenDelete(c: seq<Glyph>, index: nat, s: string, a: Option<Attrs>)
    requires index <= |c|
    ensures DeleteRange(InsertAt(c, index, s, a), index, |s|) == c
  {
    var g := Glyphs(s, if a.Some? then a.value else Inherited(c, index));
    var r := c[..index] + g + c[index..];
    assert r[..index] == c[..index];
    assert r[index + |s|..] == c[index..];
  }

  lemma MergeTwice(m: Attrs, a: Attrs)
    ensures (m + a) + a == m + a
  {
    assert (m + a + a).Keys == (m + a).Keys;
    forall k | k in (m + a).Keys
      ensures (m + a + a)[k] == (m + a)[k]
    {
    }
  }

  /** Formatting a span twice with the same attributes is formatting it once. */
  lemma FormatIdempotent(c: seq<Glyph>, from: nat, to: nat, a: Attrs)
    requires from <= to <= |c|
    ensures FormatRange(FormatRange(c, from, to, a), from, to, a) == FormatRange(c, from, to, a)
  {
    var once := FormatRange(c, from, to, a);
    var twice := FormatRange(once, from, to, a);
    forall i | 0 <= i < |once|
      ensures twice[i] == once[i]
    {
      if from <= i < to {
        MergeTwice(c[i].attrs, a);
      }
    }
  }
}

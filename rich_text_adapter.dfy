/** The binding between one shared text and one rich-text editing widget.
    Changes of the text are pushed into the widget with every formatting key
    the binding has seen pinned explicitly (the widget would otherwise let new
    text inherit the formatting before it); the widget's own user edits are
    applied to the text. The widget is seen only through the calls the
    binding makes on it, which are recorded in order. */
module Binding {
  import opened Js
  import opened Yjs

  /** Where a change comes from: a replica (the local one when `id` is the
      document's client id), a named widget source such as "user" or "api",
      or the binding itself, which passes itself as the origin when it seeds
      the widget. */
  datatype Origin = Replica(id: int) | Named(name: string) | BindingItself

  /** A change notification of the shared text. */
  datatype TextEvent = TextEvent(origin: Origin, delta: seq<Op>)

  /** The widget's selection. */
  datatype Selection = Selection(index: int, length: int)

  /** The two ends of a cursor, as positions in the shared text. */
  datatype Cursor = Cursor(anchor: int, focus: int)

  /** A call the binding makes on the widget. */
  datatype WidgetCall =
    | GetModule(name: string)
    | SetContents(delta: seq<Op>, origin: Origin)
    | UpdateContents(delta: seq<Op>, origin: Origin)
    | On(event: string)
    | Off(event: string)

  const EditorChange := "editor-change"
  const UserSource := Named("user")

  /** The attributes an operation carries; a delete carries none. */
  function OpAttributes(op: Op): Attrs {
    match op
    case Insert(_, a) => a.GetOr(map[])
    case Retain(_, a) => a.GetOr(map[])
    case Delete(_) => map[]
  }

  /** Every attribute key the operations use. */
  function UsedKeys(ops: seq<Op>): set<string> {
    if ops == [] then {} else UsedKeys(ops[..|ops| - 1]) + OpAttributes(ops[|ops| - 1]).Keys
  }

  /** `m` with each key of `keys` it lacks added as `false`. */
  function Register(m: Attrs, keys: set<string>): Attrs {
    map k | k in m.Keys + keys :: if k in m then m[k] else Flag(false)
  }

  /** What the widget observer leaves in the used-formats map. */
  function Registered(m: Attrs, ops: seq<Op>): Attrs {
    Register(m, UsedKeys(ops))
  }

  /** The used-formats map holds `false` only. */
  predicate AllNegated(m: Attrs) {
    forall k :: k in m ==> m[k] == Flag(false)
  }

  /** `m` with `k` added as `false` unless present. */
  function AddKey(m: Attrs, k: string): Attrs {
    if k in m then m else m[k := Flag(false)]
  }

  lemma RegisterOne(m: Attrs, done: set<string>, k: string)
    ensures Register(m, done + {k}) == AddKey(Register(m, done), k)
  {
  }

  lemma RegisterTwice(m: Attrs, a: set<string>, b: set<string>)
    ensures Register(Register(m, a), b) == Register(m, a + b)
  {
  }

  /** Registering only adds keys: it never drops or overwrites one, and
      what it adds is `false`. */
  lemma RegisteringOnlyGrows(m: Attrs, ops: seq<Op>)
    ensures var r := Registered(m, ops);
            && m.Keys <= r.Keys
            && (forall k :: k in m ==> r[k] == m[k])
            && (AllNegated(m) ==> AllNegated(r))
  {
  }

  /** Seeing the same operations twice registers nothing more. */
  lemma RegisteringIsIdempotent(m: Attrs, ops: seq<Op>)
    ensures Registered(Registered(m, ops), ops) == Registered(m, ops)
  {
    RegisterTwice(m, UsedKeys(ops), UsedKeys(ops));
    assert UsedKeys(ops) + UsedKeys(ops) == UsedKeys(ops);
  }

  /** An operation as it is pushed into the widget: an insert gets the used
      formats overlaid by its own attributes; anything else is unchanged. */
  function MaterializeOp(negated: Attrs, op: Op): Op {
    if op.Insert? then Insert(op.text, Some(negated + op.attributes.GetOr(map[]))) else op
  }

  function Materialized(negated: Attrs, ops: seq<Op>): seq<Op> {
    seq(|ops|, i requires 0 <= i < |ops| => MaterializeOp(negated, ops[i]))
  }

  /** `r` is the delta `ops` as pushed into the widget with the used formats
      `negated`: the same operations in order; every insert keeps its text
      and states every used format explicitly, its own attributes winning
      and every other used key pinned to `false`. */
  predicate PinsUnusedFormats(negated: Attrs, ops: seq<Op>, r: seq<Op>) {
    && |r| == |ops|
    && (forall i :: 0 <= i < |ops| && !ops[i].Insert? ==> r[i] == ops[i])
    && (forall i :: 0 <= i < |ops| && ops[i].Insert? ==>
          && r[i].Insert? && r[i].text == ops[i].text && r[i].attributes.Some?
          && r[i].attributes.value.Keys == negated.Keys + OpAttributes(ops[i]).Keys
          && (forall k :: k in OpAttributes(ops[i]) ==> r[i].attributes.value[k] == OpAttributes(ops[i])[k])
          && (forall k :: k in negated && k !in OpAttributes(ops[i]) ==> r[i].attributes.value[k] == Flag(false)))
  }

  /** Materialising with an all-`false` map pins the unused formats. */
  lemma MaterializedPinsUnusedFormats(negated: Attrs, ops: seq<Op>)
    requires AllNegated(negated)
    ensures PinsUnusedFormats(negated, ops, Materialized(negated, ops))
  {
  }

  /** The loop of the text observer that builds the delta for the widget. */
  method Materialize(negated: Attrs, eventDelta: seq<Op>) returns (delta: seq<Op>)
    ensures delta == Materialized(negated, eventDelta)
  {
    delta := [];
    var i := 0;
    while i < |eventDelta|
      invariant 0 <= i <= |eventDelta|
      invariant delta == Materialized(negated, eventDelta[..i])
    {
      var d := eventDelta[i];
      if d.Insert? {
        delta := delta + [Insert(d.text, Some(negated + d.attributes.GetOr(map[])))];
      } else {
        delta := delta + [d];
      }
      i := i + 1;
    }
    assert eventDelta[..i] == eventDelta;
  }

  /** The cursor for the widget's selection: none without a selection,
      otherwise from the selection's start to `length` characters after it. */
  function GetCursor(selection: Option<Selection>): (r: Option<Cursor>)
    ensures r.None? <==> selection.None?
    ensures r.Some? ==> r.value.anchor == selection.value.index
    ensures r.Some? ==> r.value.focus - r.value.anchor == selection.value.length
  {
    match selection
    case None => None
    case Some(s) => Some(Cursor(s.index, s.index + s.length))
  }

  class RichTextAdapter {
    const clientId: int
    const yText: YText
    var negatedUsedFormats: Attrs
    var widgetCalls: seq<WidgetCall>
    var observingText: bool
    var listeningToWidget: bool

    ghost predicate Valid()
      reads this
    {
      AllNegated(negatedUsedFormats)
    }

    /** Binding as written: the text observer is subscribed, the widget is
        seeded with the text's delta, and only then is the widget listener
        subscribed, so the listener does not see the seeding change and the
        used-formats map starts empty. */
    constructor (clientId: int, yText: YText)
      ensures this.clientId == clientId && this.yText == yText
      ensures negatedUsedFormats == map[]
      ensures widgetCalls == [GetModule("cursors"), SetContents(InsertOps(ToDelta(yText.content)), BindingItself), On(EditorChange)]
      ensures observingText && listeningToWidget
      ensures Valid()
    {
      this.clientId := clientId;
      this.yText := yText;
      negatedUsedFormats := map[];
      observingText := true;
      widgetCalls := [GetModule("cursors"), SetContents(InsertOps(ToDelta(yText.content)), BindingItself), On(EditorChange)];
      listeningToWidget := true;
    }

    /** Binding with the widget listener subscribed before the widget is
        seeded, so that the seeding change registers the formats the text
        already uses, as the binding means to. */
    constructor Seeded(clientId: int, yText: YText)
      modifies yText
      ensures this.clientId == clientId && this.yText == yText
      ensures negatedUsedFormats == Registered(map[], InsertOps(ToDelta(yText.content)))
      ensures widgetCalls == [GetModule("cursors"), On(EditorChange), SetContents(InsertOps(ToDelta(yText.content)), BindingItself)]
      ensures yText.content == old(yText.content) && yText.meta == old(yText.meta)
      ensures observingText && listeningToWidget
      ensures Valid()
    {
      this.clientId := clientId;
      this.yText := yText;
      negatedUsedFormats := map[];
      observingText := true;
      widgetCalls := [GetModule("cursors"), On(EditorChange)];
      listeningToWidget := true;
      new;
      var seed := InsertOps(ToDelta(yText.content));
      widgetCalls := widgetCalls + [SetContents(seed, BindingItself)];
      QuillObserver("text-change", Some(seed), BindingItself);
    }

    /** The text observer: a change from another replica, or one carrying a
        marker, is pushed into the widget under the local replica's tag with
        its formats materialised; the marker is then cleared. A local change
        without a marker is already in the widget and is not pushed back. */
    method YObserver(event: TextEvent)
      requires Valid()
      modifies this, yText
      ensures Valid()
      ensures var forwarded := event.origin != Replica(clientId) || old(yText.meta) != Unset;
              widgetCalls == old(widgetCalls)
                + (if forwarded then [UpdateContents(Materialized(old(negatedUsedFormats), event.delta), Replica(clientId))] else [])
      ensures event.origin != Replica(clientId) || old(yText.meta) != Unset ==>
                widgetCalls[|widgetCalls| - 1].UpdateContents? &&
                PinsUnusedFormats(old(negatedUsedFormats), event.delta, widgetCalls[|widgetCalls| - 1].delta)
      ensures yText.meta == Unset
      ensures yText.content == old(yText.content)
      ensures negatedUsedFormats == old(negatedUsedFormats)
      ensures observingText == old(observingText) && listeningToWidget == old(listeningToWidget)
    {
      var isFromLocal := event.origin == Replica(clientId);
      var isFromRemote := !isFromLocal;
      var isControlledOperation := yText.meta != Unset;
      if isFromRemote || isControlledOperation {
        var delta := Materialize(negatedUsedFormats, event.delta);
        MaterializedPinsUnusedFormats(negatedUsedFormats, event.delta);
        widgetCalls := widgetCalls + [UpdateContents(delta, Replica(clientId))];
        if yText.meta != Unset {
          yText.meta := Unset;
        }
      }
    }

    /** The widget listener: every attribute key the widget's operations use
        is registered as `false` unless already present; the operations are
        applied to the text only when the end user made them. */
    method QuillObserver(eventType: string, delta: Option<seq<Op>>, origin: Origin)
      requires Valid()
      modifies this, yText
      ensures Valid()
      ensures negatedUsedFormats == if delta.Some? then Registered(old(negatedUsedFormats), delta.value) else old(negatedUsedFormats)
      ensures yText.content == if delta.Some? && origin == UserSource then ApplyOps(old(yText.content), delta.value) else old(yText.content)
      ensures yText.meta == old(yText.meta)
      ensures widgetCalls == old(widgetCalls)
      ensures observingText == old(observingText) && listeningToWidget == old(listeningToWidget)
    {
      if delta.Some? {
        var ops := delta.value;
        ghost var m0 := negatedUsedFormats;
        var i := 0;
        while i < |ops|
          invariant 0 <= i <= |ops|
          invariant negatedUsedFormats == Registered(m0, ops[..i])
          invariant Valid()
          invariant unchanged(yText)
          invariant widgetCalls == old(widgetCalls)
          invariant observingText == old(observingText) && listeningToWidget == old(listeningToWidget)
        {
          assert ops[..i + 1][..i] == ops[..i];
          RegisterTwice(m0, UsedKeys(ops[..i]), OpAttributes(ops[i]).Keys);
          RegisterKeys(OpAttributes(ops[i]));
          i := i + 1;
        }
        assert ops[..i] == ops;
        if origin == UserSource {
          yText.ApplyDelta(ops);
        }
      }
    }

    /** The inner loop of the widget listener over one operation's keys. */
    method RegisterKeys(attributes: Attrs)
      requires Valid()
      modifies this
      ensures Valid()
      ensures negatedUsedFormats == Register(old(negatedUsedFormats), attributes.Keys)
      ensures widgetCalls == old(widgetCalls)
      ensures observingText == old(observingText) && listeningToWidget == old(listeningToWidget)
    {
      negatedUsedFormats := AddAbsentKeys(negatedUsedFormats, attributes.Keys);
    }

    /** `destroy()`: both subscriptions are dropped. */
    method Destroy()
      requires Valid()
      modifies this
      ensures Valid()
      ensures !observingText && !listeningToWidget
      ensures widgetCalls == old(widgetCalls) + [Off(EditorChange)]
      ensures negatedUsedFormats == old(negatedUsedFormats)
    {
      observingText := false;
      widgetCalls := widgetCalls + [Off(EditorChange)];
      listeningToWidget := false;
    }
  }

  /** The walk over the keys of one operation's attributes, adding each one
      the map lacks. */
  method AddAbsentKeys(m0: Attrs, keySet: set<string>) returns (m: Attrs)
    ensures m == Register(m0, keySet)
  {
    m := m0;
    ghost var done: set<string> := {};
    var keys := keySet;
    assert m0 == Register(m0, {});
    while keys != {}
      invariant done + keys == keySet
      invariant m == Register(m0, done)
      decreases keys
    {
      var key :| key in keys;
      RegisterOne(m0, done, key);
      m := AddKey(m, key);
      done := done + {key};
      keys := keys - {key};
    }
  }

  /** A key is used by the operations exactly when some operation carries it. */
  lemma {:induction false} UsedKeysMember(ops: seq<Op>, k: string)
    ensures k in UsedKeys(ops) <==> exists i :: 0 <= i < |ops| && k in OpAttributes(ops[i])
    decreases |ops|
  {
    if ops != [] {
      var n := |ops| - 1;
      UsedKeysMember(ops[..n], k);
      if k in UsedKeys(ops[..n]) {
        var i :| 0 <= i < n && k in OpAttributes(ops[..n][i]);
        assert ops[i] == ops[..n][i];
      }
      if exists i :: 0 <= i < |ops| && k in OpAttributes(ops[i]) {
        var i :| 0 <= i < |ops| && k in OpAttributes(ops[i]);
        if i < n {
          assert ops[..n][i] == ops[i];
        }
      }
    }
  }

  /** Every formatting key of the content a delta describes is carried by
      one of the delta's runs. */
  lemma {:induction false} ExpandedKeysAreCarried(d: seq<Run>, j: nat, k: string)
    requires j < |Expand(d)| && k in Expand(d)[j].attrs
    ensures exists i :: 0 <= i < |d| && k in d[i].attributes.GetOr(map[])
    decreases |d|
  {
    var g := Glyphs(d[0].insert, d[0].attributes.GetOr(map[]));
    assert Expand(d) == g + Expand(d[1..]);
    if j >= |g| {
      assert Expand(d)[j] == Expand(d[1..])[j - |g|];
      ExpandedKeysAreCarried(d[1..], j - |g|, k);
      var i :| 0 <= i < |d[1..]| && k in d[1..][i].attributes.GetOr(map[]);
      assert d[i + 1] == d[1..][i];
    }
  }

  /** Seeding through the widget listener registers every formatting key the
      text already uses. */
  lemma SeedingRegistersContentFormats(c: seq<Glyph>, j: nat, k: string)
    requires j < |c| && k in c[j].attrs
    ensures var seeded := Registered(map[], InsertOps(ToDelta(c)));
            k in seeded && seeded[k] == Flag(false)
  {
    var d := ToDelta(c);
    ToDeltaExpands(c);
    ExpandedKeysAreCarried(d, j, k);
    var i :| 0 <= i < |d| && k in d[i].attributes.GetOr(map[]);
    assert k in OpAttributes(InsertOps(d)[i]);
    UsedKeysMember(InsertOps(d), k);
  }

  /** The binding as written starts with an empty used-formats map even over
      a bold text, whose "bold" key seeding would have registered. */
  lemma UnseededMissesContentFormats()
    ensures var c := Glyphs("a", map["bold" := Flag(true)]);
            Registered(map[], InsertOps(ToDelta(c))) != map[]
  {
    var c := Glyphs("a", map["bold" := Flag(true)]);
    assert "bold" in c[0].attrs;
    SeedingRegistersContentFormats(c, 0, "bold");
    assert "bold" in Registered(map[], InsertOps(ToDelta(c)));
  }
}

/**
  The message tree after markdown conversion, and the pass that turns each
  `{at}` marker in a text node into a mention of the joining member
  (`transformElement`, `transformElements` in src/index.ts).

  The pass is specified twice: by the functions MentionNodes, Rewrite and
  RewriteAll, and by the methods TransformElement and TransformElements,
  which push into caller-supplied lists as the source does and are proved
  to push exactly what the functions describe.
 */
module Elements {
  import opened Nullable
  import opened Strings
  import opened Replacement

  /** The marker a template writes where the member is to be mentioned. */
  const Marker: string := "{at}"

  /** A message element: a text element (type `"text"`, its `content`
      attribute) or any other element with its type, attributes, source
      and children. A text element is always written `Text`; see WellFormed. */
  datatype Node =
    | Text(content: string)
    | Element(kind: string, attrs: map<string, string>, source: Option<string>, children: seq<Node>)

  /** `h.at(session.userId)`: an `at` element whose `id` attribute is the
      member's id (no `id` when the session has none). */
  function Mention(uid: Option<string>): (r: Node)
    ensures r.Element? && r.kind == "at" && r.children == []
    ensures uid.Some? ==> r.attrs == map["id" := uid.value]
    ensures uid.None? ==> r.attrs == map[]
  {
    Element("at", MentionAttrs(uid), None, [])
  }

  /** `{ id: uid }`. */
  function MentionAttrs(uid: Option<string>): map<string, string>
  {
    if uid.Some? then map["id" := uid.value] else map[]
  }

  /** The nodes one text element becomes: the text before each marker, a
      mention, and so on, ending with the text after the last marker. */
  function MentionNodes(text: string, uid: Option<string>): (r: seq<Node>)
    ensures |r| >= 1 && |r| % 2 == 1
    ensures r[0].Text? && r[|r| - 1].Text?
    decreases |text|
  {
    var i := IndexOf(text, Marker);
    if i < 0 then [Text(text)]
    else [Text(text[..i]), Mention(uid)] + MentionNodes(text[i + |Marker|..], uid)
  }

  /** The nodes one element becomes: a text element is cut at its markers;
      any other element is rebuilt with the same type, attributes and
      source around its rewritten children. */
  function Rewrite(n: Node, uid: Option<string>): (r: seq<Node>)
    ensures |r| >= 1
    ensures n.Element? ==>
      |r| == 1 && r[0].Element? && r[0].kind == n.kind && r[0].attrs == n.attrs &&
      r[0].source == n.source && |r[0].children| >= |n.children|
    decreases n, 1
  {
    match n
    case Text(c) => MentionNodes(c, uid)
    case Element(k, a, src, ch) => [Element(k, a, src, RewriteAll(ch, uid))]
  }

  /** The nodes a list of elements becomes, in order. */
  function RewriteAll(ns: seq<Node>, uid: Option<string>): (r: seq<Node>)
    ensures |r| >= |ns|
    decreases ns, 0
  {
    if |ns| == 0 then []
    else RewriteAll(ns[..|ns| - 1], uid) + Rewrite(ns[|ns| - 1], uid)
  }

  /** Text pieces alternating with mentions: `Text(p0), at, Text(p1), …`. */
  function Interleave(pieces: seq<string>, uid: Option<string>): seq<Node>
    requires |pieces| >= 1
  {
    if |pieces| == 1 then [Text(pieces[0])]
    else [Text(pieces[0]), Mention(uid)] + Interleave(pieces[1..], uid)
  }

  /** The text a flat node list stands for: text contents as they are and
      each mention as the marker it replaced. */
  function Restore(ns: seq<Node>, uid: Option<string>): string
  {
    if |ns| == 0 then ""
    else (if ns[0] == Mention(uid) then Marker
          else if ns[0].Text? then ns[0].content
          else "") + Restore(ns[1..], uid)
  }

  /** No text element anywhere in `n` holds a marker, whether it is
      written `Text` or as an `Element` of type `"text"`. */
  predicate MarkerFree(n: Node)
  {
    match n
    case Text(c) => !Contains(c, Marker)
    case Element(k, a, _, ch) =>
      (k == "text" && "content" in a ==> !Contains(a["content"], Marker)) &&
      forall i | 0 <= i < |ch| :: MarkerFree(ch[i])
  }

  /** No text element anywhere in `ns` holds a marker. */
  predicate AllMarkerFree(ns: seq<Node>)
  {
    forall k | 0 <= k < |ns| :: MarkerFree(ns[k])
  }

  /** Every text element in `n` is written `Text`: no `Element` has type
      `"text"`. The source has one form of text element, `h.text(content)`,
      and the model writes it `Text(content)`; an `Element` of type `"text"`
      would be a second spelling of the same element. */
  predicate WellFormed(n: Node)
  {
    match n
    case Text(_) => true
    case Element(k, _, _, ch) => k != "text" && forall i | 0 <= i < |ch| :: WellFormed(ch[i])
  }

  /** Every element of `ns` is well-formed. */
  predicate AllWellFormed(ns: seq<Node>)
  {
    forall k | 0 <= k < |ns| :: WellFormed(ns[k])
  }

  lemma MarkerIsToken()
    ensures Token(Marker)
  {
  }

  // ----- one text element -----

  /** The text is cut exactly where `split("{at}")` cuts it: the k-th text
      node holds the k-th piece, and a mention stands between each two. */
  lemma {:induction false} MentionNodesInterleave(text: string, uid: Option<string>)
    ensures MentionNodes(text, uid) == Interleave(Split(text, Marker), uid)
    decreases |text|
  {
    var i := IndexOf(text, Marker);
    if i >= 0 {
      var rest := text[i + |Marker|..];
      MentionNodesInterleave(rest, uid);
      var pieces := [text[..i]] + Split(rest, Marker);
      assert pieces[1..] == Split(rest, Marker);
    }
  }

  /** The shape of an interleaving: 2k+1 nodes for k+1 pieces, texts at
      even positions holding the pieces in order, mentions at odd ones. */
  lemma {:induction false} InterleaveShape(pieces: seq<string>, uid: Option<string>)
    requires |pieces| >= 1
    ensures |Interleave(pieces, uid)| == 2 * |pieces| - 1
    ensures forall j | 0 <= j < |pieces| :: Interleave(pieces, uid)[2 * j] == Text(pieces[j])
    ensures forall j | 0 <= j < |pieces| - 1 :: Interleave(pieces, uid)[2 * j + 1] == Mention(uid)
  {
    if |pieces| > 1 {
      var tail := Interleave(pieces[1..], uid);
      InterleaveShape(pieces[1..], uid);
      assert Interleave(pieces, uid) == [Text(pieces[0]), Mention(uid)] + tail;
      forall j | 1 <= j < |pieces|
        ensures Interleave(pieces, uid)[2 * j] == Text(pieces[j])
      {
        assert tail[2 * (j - 1)] == Text(pieces[1..][j - 1]);
      }
      forall j | 1 <= j < |pieces| - 1
        ensures Interleave(pieces, uid)[2 * j + 1] == Mention(uid)
      {
        assert tail[2 * (j - 1) + 1] == Mention(uid);
      }
    }
  }

  /** A text with k markers becomes 2k+1 nodes, alternating text and
      mention; every text node is marker-free, and none is dropped even
      when it is empty. */
  lemma MentionNodesShape(text: string, uid: Option<string>)
    ensures |MentionNodes(text, uid)| == 2 * |Split(text, Marker)| - 1
    ensures forall j | 0 <= j < |Split(text, Marker)| ::
      MentionNodes(text, uid)[2 * j] == Text(Split(text, Marker)[j]) &&
      !Contains(MentionNodes(text, uid)[2 * j].content, Marker)
    ensures forall j | 0 <= j < |Split(text, Marker)| - 1 :: MentionNodes(text, uid)[2 * j + 1] == Mention(uid)
  {
    MentionNodesInterleave(text, uid);
    InterleaveShape(Split(text, Marker), uid);
  }

  /** One turn of the loop in TransformElement: the text before the first
      marker and a mention, then the nodes for the rest. */
  lemma MentionNodesStep(text: string, uid: Option<string>, i: int)
    requires 0 <= i && IndexOf(text, Marker) == i
    ensures MentionNodes(text, uid) == [Text(text[..i]), Mention(uid)] + MentionNodes(text[i + |Marker|..], uid)
  {
  }

  /** The last text: a text without a marker is one node. */
  lemma MentionNodesLast(text: string, uid: Option<string>)
    requires IndexOf(text, Marker) == -1
    ensures MentionNodes(text, uid) == [Text(text)]
  {
  }

  /** Pieces without markers, joined at markers, are cut back into exactly
      those pieces: one mention per marker, and the texts between them. */
  lemma MentionNodesOfJoin(pieces: seq<string>, uid: Option<string>)
    requires |pieces| >= 1
    requires forall k | 0 <= k < |pieces| :: !Contains(pieces[k], Marker)
    ensures MentionNodes(Join(pieces, Marker), uid) == Interleave(pieces, uid)
  {
    MarkerIsToken();
    SplitOfJoin(pieces, Marker);
    MentionNodesInterleave(Join(pieces, Marker), uid);
  }

  /** Reading the nodes back, with each mention as `{at}`, gives the text
      element's content. */
  lemma {:induction false} RestoreMentionNodes(text: string, uid: Option<string>)
    ensures Restore(MentionNodes(text, uid), uid) == text
    decreases |text|
  {
    var i := IndexOf(text, Marker);
    if i < 0 {
      MentionNodesLast(text, uid);
      RestoreLast(text, uid);
    } else {
      var rest := text[i + |Marker|..];
      MentionNodesStep(text, uid, i);
      RestoreMentionNodes(rest, uid);
      RestoreStep(text[..i], uid, MentionNodes(rest, uid));
      CutAtFirst(text, Marker, i);
      Assoc(text[..i], Marker, rest);
    }
  }

  /** A lone text node reads back as its content. */
  lemma RestoreLast(a: string, uid: Option<string>)
    ensures Restore([Text(a)], uid) == a
  {
    assert [Text(a)][1..] == [];
  }

  /** A text node and a mention read back as the text and the marker. */
  lemma RestoreStep(a: string, uid: Option<string>, tail: seq<Node>)
    ensures Restore([Text(a), Mention(uid)] + tail, uid) == a + Marker + Restore(tail, uid)
  {
    var ns := [Text(a), Mention(uid)] + tail;
    assert ns[1..] == [Mention(uid)] + tail;
    assert ns[1..][1..] == tail;
    assert Restore(ns, uid) == a + Restore(ns[1..], uid);
  }

  /** A text element is left as it is exactly when it holds no marker. */
  lemma MentionNodesIdentity(text: string, uid: Option<string>)
    ensures MentionNodes(text, uid) == [Text(text)] <==> !Contains(text, Marker)
  {
    IndexOfFirst(text, Marker);
    var i := IndexOf(text, Marker);
    if i >= 0 {
      assert |MentionNodes(text, uid)| >= 2;
    }
  }

  /** An empty piece is kept: a lone marker gives an empty text on each side. */
  lemma LoneMarker(uid: Option<string>)
    ensures MentionNodes("{at}", uid) == [Text(""), Mention(uid), Text("")]
  {
    assert OccursAt("{at}", Marker, 0);
    IndexOfIs("{at}", Marker, 0);
    assert "{at}"[4..] == "";
    IndexOfAbsent("", Marker);
  }

  /** Three marker-free texts around two markers, as in `"a{at}b{at}c"`,
      give five nodes: each text, with a mention between each two. */
  lemma TwoMarkers(a: string, b: string, c: string, uid: Option<string>)
    requires !Contains(a, Marker) && !Contains(b, Marker) && !Contains(c, Marker)
    ensures MentionNodes(a + Marker + b + Marker + c, uid) ==
      [Text(a), Mention(uid), Text(b), Mention(uid), Text(c)]
  {
    var pieces := [a, b, c];
    MentionNodesOfJoin(pieces, uid);
    JoinThree(a, b, c, Marker);
    InterleaveThree(a, b, c, uid);
  }

  lemma JoinThree(a: string, b: string, c: string, m: string)
    ensures Join([a, b, c], m) == a + m + b + m + c
  {
    assert [a, b, c][1..] == [b, c];
    assert [b, c][1..] == [c];
    assert Join([b, c], m) == b + m + c;
    assert Join([a, b, c], m) == a + m + (b + m + c);
    assert a + m + (b + m + c) == a + m + b + m + c;
  }

  lemma InterleaveThree(a: string, b: string, c: string, uid: Option<string>)
    ensures Interleave([a, b, c], uid) == [Text(a), Mention(uid), Text(b), Mention(uid), Text(c)]
  {
    assert [a, b, c][1..] == [b, c];
    assert [b, c][1..] == [c];
    assert Interleave([b, c], uid) == [Text(b), Mention(uid), Text(c)];
    assert Interleave([a, b, c], uid) == [Text(a), Mention(uid)] + [Text(b), Mention(uid), Text(c)];
  }

  // ----- whole trees -----

  /** Rewriting a list is rewriting its parts in order. */
  lemma {:induction false} RewriteAllAppend(xs: seq<Node>, ys: seq<Node>, uid: Option<string>)
    ensures RewriteAll(xs + ys, uid) == RewriteAll(xs, uid) + RewriteAll(ys, uid)
    decreases |ys|
  {
    if |ys| == 0 {
      assert xs + ys == xs;
    } else {
      var init, last := ys[..|ys| - 1], ys[|ys| - 1];
      assert (xs + ys)[..|xs + ys| - 1] == xs + init;
      assert (xs + ys)[|xs + ys| - 1] == last;
      RewriteAllAppend(xs, init, uid);
      NodesAssoc(RewriteAll(xs, uid), RewriteAll(init, uid), Rewrite(last, uid));
    }
  }

  lemma NodesAssoc(a: seq<Node>, b: seq<Node>, c: seq<Node>)
    ensures a + b + c == a + (b + c)
  {
  }

  /** Rewriting one more element of a list appends that element's nodes. */
  lemma RewriteAllPrefix(ns: seq<Node>, i: int, uid: Option<string>)
    requires 0 <= i < |ns|
    ensures RewriteAll(ns[..i + 1], uid) == RewriteAll(ns[..i], uid) + Rewrite(ns[i], uid)
  {
    assert ns[..i + 1][..i] == ns[..i];
  }

  /** A list never shrinks, and keeps its length only when each element
      gives exactly one node, which then is its position's result. */
  lemma {:induction false} RewriteAllLength(ns: seq<Node>, uid: Option<string>)
    ensures |RewriteAll(ns, uid)| >= |ns|
    ensures |RewriteAll(ns, uid)| == |ns| ==>
      forall k | 0 <= k < |ns| :: Rewrite(ns[k], uid) == [RewriteAll(ns, uid)[k]]
    decreases |ns|
  {
    if |ns| > 0 {
      var init := ns[..|ns| - 1];
      RewriteAllLength(init, uid);
      if |RewriteAll(ns, uid)| == |ns| {
        var r := RewriteAll(ns, uid);
        assert r == RewriteAll(init, uid) + Rewrite(ns[|ns| - 1], uid);
        forall k | 0 <= k < |ns| ensures Rewrite(ns[k], uid) == [r[k]] {
          if k < |ns| - 1 {
            assert ns[k] == init[k];
          }
        }
      }
    }
  }

  /** The pass leaves an element as it is exactly when the element holds no
      marker anywhere: a tree without markers is rebuilt identically, and
      a tree rebuilt identically had none. */
  lemma {:induction false} RewriteIdentity(n: Node, uid: Option<string>)
    requires WellFormed(n)
    ensures Rewrite(n, uid) == [n] <==> MarkerFree(n)
    decreases n, 1
  {
    match n
    case Text(c) =>
      MentionNodesIdentity(c, uid);
    case Element(k, a, src, ch) =>
      RewriteAllIdentity(ch, uid);
  }

  /** A list is left as it is exactly when none of its elements holds a marker. */
  lemma {:induction false} RewriteAllIdentity(ns: seq<Node>, uid: Option<string>)
    requires AllWellFormed(ns)
    ensures RewriteAll(ns, uid) == ns <==> AllMarkerFree(ns)
    decreases ns, 0
  {
    if AllMarkerFree(ns) {
      forall k | 0 <= k < |ns| ensures Rewrite(ns[k], uid) == [ns[k]] {
        RewriteIdentity(ns[k], uid);
      }
      RewriteAllFixed(ns, uid);
    }
    if RewriteAll(ns, uid) == ns {
      RewriteAllLength(ns, uid);
      forall k | 0 <= k < |ns| ensures MarkerFree(ns[k]) {
        RewriteIdentity(ns[k], uid);
      }
    }
  }

  /** A list whose every element is left as it is, is left as it is. */
  lemma {:induction false} RewriteAllFixed(ns: seq<Node>, uid: Option<string>)
    requires forall k | 0 <= k < |ns| :: Rewrite(ns[k], uid) == [ns[k]]
    ensures RewriteAll(ns, uid) == ns
    decreases |ns|
  {
    if |ns| > 0 {
      var init := ns[..|ns| - 1];
      RewriteAllFixed(init, uid);
      assert init + [ns[|ns| - 1]] == ns;
    }
  }

  /** The text before the first marker holds no marker. */
  lemma BeforeFirstMarker(text: string, i: int)
    requires 0 <= i && IndexOf(text, Marker) == i
    ensures !Contains(text[..i], Marker)
  {
    assert Split(text, Marker)[0] == text[..i];
  }

  /** Two marker-free lists make a marker-free list. */
  lemma AllMarkerFreeConcat(xs: seq<Node>, ys: seq<Node>)
    requires AllMarkerFree(xs) && AllMarkerFree(ys)
    ensures AllMarkerFree(xs + ys)
  {
    forall k | 0 <= k < |xs + ys| ensures MarkerFree((xs + ys)[k]) {
      if k >= |xs| {
        assert (xs + ys)[k] == ys[k - |xs|];
      }
    }
  }

  /** The nodes made from one text element hold no marker, and are
      well-formed. */
  lemma {:induction false} MentionNodesMarkerFree(text: string, uid: Option<string>)
    ensures AllMarkerFree(MentionNodes(text, uid))
    ensures AllWellFormed(MentionNodes(text, uid))
    decreases |text|
  {
    var i := IndexOf(text, Marker);
    if i < 0 {
      IndexOfFirst(text, Marker);
      MentionNodesLast(text, uid);
    } else {
      var rest := text[i + |Marker|..];
      MentionNodesStep(text, uid, i);
      MentionNodesMarkerFree(rest, uid);
      BeforeFirstMarker(text, i);
      assert MarkerFree(Mention(uid));
      AllMarkerFreeConcat([Text(text[..i]), Mention(uid)], MentionNodes(rest, uid));
    }
  }

  /** After the pass no text element anywhere holds a marker, and the
      result is well-formed again. */
  lemma {:induction false} RewriteMarkerFree(n: Node, uid: Option<string>)
    requires WellFormed(n)
    ensures AllMarkerFree(Rewrite(n, uid)) && AllWellFormed(Rewrite(n, uid))
    decreases n, 1
  {
    match n
    case Text(c) =>
      MentionNodesMarkerFree(c, uid);
    case Element(kd, a, src, ch) =>
      RewriteAllMarkerFree(ch, uid);
  }

  /** After the pass no text element anywhere in the list holds a marker,
      and the list is well-formed again. */
  lemma {:induction false} RewriteAllMarkerFree(ns: seq<Node>, uid: Option<string>)
    requires AllWellFormed(ns)
    ensures AllMarkerFree(RewriteAll(ns, uid)) && AllWellFormed(RewriteAll(ns, uid))
    decreases ns, 0
  {
    if |ns| > 0 {
      RewriteAllMarkerFree(ns[..|ns| - 1], uid);
      RewriteMarkerFree(ns[|ns| - 1], uid);
    }
  }

  /** Running the pass a second time changes nothing. */
  lemma RewriteAllIdempotent(ns: seq<Node>, uid: Option<string>)
    requires AllWellFormed(ns)
    ensures RewriteAll(RewriteAll(ns, uid), uid) == RewriteAll(ns, uid)
  {
    RewriteAllMarkerFree(ns, uid);
    RewriteAllIdentity(RewriteAll(ns, uid), uid);
  }

  // ----- the imperative pass -----

  /** A JavaScript array the pass pushes into. */
  class NodeList {
    var items: seq<Node>

    /** `[]`. */
    constructor ()
      ensures items == []
    {
      items := [];
    }

    /** `list.push(n)`. */
    method Push(n: Node)
      modifies this
      ensures items == old(items) + [n]
    {
      items := items + [n];
    }
  }

  /** Pushing two nodes one after the other. */
  lemma PushTwo(xs: seq<Node>, a: Node, b: Node, ys: seq<Node>)
    ensures xs + [a] + [b] + ys == xs + ([a, b] + ys)
  {
  }

  /** `transformElement`: a non-text element pushes nothing; a text element
      pushes the text before each `{at}` and a mention, then the remaining
      text. */
  method TransformElement(element: Node, uid: Option<string>, parent: NodeList)
    modifies parent
    ensures parent.items == old(parent.items) + (if element.Text? then MentionNodes(element.content, uid) else [])
  {
    if !element.Text? {
      return;
    }
    var text := element.content;
    while true
      invariant parent.items + MentionNodes(text, uid) == old(parent.items) + MentionNodes(element.content, uid)
      decreases |text|
    {
      var index := IndexOf(text, Marker);
      if index == -1 {
        break;
      }
      var before := text[..index];
      var after := text[index + |Marker|..];
      MentionNodesStep(text, uid, index);
      PushTwo(parent.items, Text(before), Mention(uid), MentionNodes(after, uid));
      parent.Push(Text(before));
      parent.Push(Mention(uid));
      text := after;
    }
    MentionNodesLast(text, uid);
    parent.Push(Text(text));
  }

  /** `transformElements`: a text element goes through TransformElement;
      any other element is rebuilt with a fresh child list, each child is
      transformed into it, and the rebuilt element is pushed. */
  method TransformElements(element: Node, uid: Option<string>, parent: NodeList)
    modifies parent
    ensures parent.items == old(parent.items) + Rewrite(element, uid)
    decreases element
  {
    if element.Text? {
      TransformElement(element, uid, parent);
      assert Rewrite(element, uid) == MentionNodes(element.content, uid);
      return;
    }
    var children := new NodeList();
    for i := 0 to |element.children|
      invariant children.items == RewriteAll(element.children[..i], uid)
      invariant parent.items == old(parent.items)
    {
      var child := element.children[i];
      TransformElements(child, uid, children);
      RewriteAllPrefix(element.children, i, uid);
    }
    assert element.children[..|element.children|] == element.children;
    parent.Push(Element(element.kind, element.attrs, element.source, children.items));
  }
}

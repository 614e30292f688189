/** The knowledge-graph view: rebuilding nodes and links from the note collection,
    the pointer hit test, the hover register and the click rule, and the boolean
    emphasis rules the painter applies. The force simulation and the painting
    itself are not modelled. */
module GraphView {
  import opened Seqs
  import opened Strings
  import opened Notes
  import opened WikiMarkers

  /** One drawn note; positions and velocities are exact reals here. */
  datatype Node = Node(id: string, title: string, x: real, y: real, vx: real, vy: real, radius: int)

  /** A directed reference from the note `source` to the note `target`. */
  datatype Link = Link(source: string, target: string)

  /** The callbacks the view invokes on its host, in order. */
  datatype Event = NoteSelected(id: string) | Closed

  const BaseRadius: int := 8
  const RadiusPerMention: int := 5
  const HitMargin: int := 15
  const LabelRadius: int := 12
  const HoverGrowth: int := 6

  // ---------------------------------------------------------------- nodes

  /** The marker whose exact occurrence counts toward a node's radius. */
  function MentionMarker(title: string): string {
    "[[" + title + "]]"
  }

  /** `notes.filter(other => other.content.includes(`[[${title}]]`)).length`:
      the number of notes, the titled note itself included, whose content holds
      the exact, case-sensitive marker. */
  function MentionCount(notes: seq<Note>, title: string): (k: nat)
    ensures k <= |notes|
    ensures k >= 1 <==> exists i :: 0 <= i < |notes| && Contains(notes[i].content, MentionMarker(title))
  {
    var f := Filter(notes, (other: Note) => Contains(other.content, MentionMarker(title)));
    assert |f| >= 1 ==> f[0] in notes;
    |f|
  }

  /** Every note whose content holds the marker adds to the count: in particular
      the count is positive as soon as one note does. */
  lemma MentionCountPositive(notes: seq<Note>, title: string, i: nat)
    requires i < |notes| && Contains(notes[i].content, MentionMarker(title))
    ensures MentionCount(notes, title) >= 1
  {
    var f := Filter(notes, (other: Note) => Contains(other.content, MentionMarker(title)));
    assert notes[i] in f;
  }

  function FreshRadius(mentions: nat): (r: int)
    ensures r >= BaseRadius
    ensures r > LabelRadius <==> mentions >= 1
  {
    BaseRadius + RadiusPerMention * mentions
  }

  /** More mentions never make a fresh node smaller. */
  lemma FreshRadiusMonotone(k1: nat, k2: nat)
    requires k1 <= k2
    ensures FreshRadius(k1) <= FreshRadius(k2)
  {
  }

  /** `v / 2 + (rand - 0.5) * v * 0.5`: a uniform draw `rand` in [0, 1) lands in
      the central half [v/4, 3v/4) of the extent `v`. */
  function Scatter(v: real, rand: real): (p: real)
    ensures 0.0 <= v && 0.0 <= rand ==> v / 4.0 <= p
    ensures 0.0 < v && rand < 1.0 ==> p < 3.0 * v / 4.0
  {
    var p := v / 2.0 + (rand - 0.5) * v * 0.5;
    assert p == v / 4.0 + rand * v / 2.0;
    assert 0.0 <= v && 0.0 <= rand ==> 0.0 <= rand * v;
    assert 0.0 < v && rand < 1.0 ==> rand * v < v;
    p
  }

  /** The node created for a note no previous node carries. */
  function FreshNode(note: Note, notes: seq<Note>, width: real, height: real, rx: real, ry: real): (n: Node)
    ensures n.id == note.id && n.title == note.title
    ensures n.vx == 0.0 && n.vy == 0.0
    ensures n.radius == BaseRadius + RadiusPerMention * MentionCount(notes, note.title)
    ensures 0.0 < width && 0.0 <= rx < 1.0 ==> width / 4.0 <= n.x < 3.0 * width / 4.0
    ensures 0.0 < height && 0.0 <= ry < 1.0 ==> height / 4.0 <= n.y < 3.0 * height / 4.0
  {
    Node(note.id, note.title, Scatter(width, rx), Scatter(height, ry), 0.0, 0.0,
         FreshRadius(MentionCount(notes, note.title)))
  }

  /** `previous.find(en => en.id === id)`, as an index. */
  function PreviousNode(previous: seq<Node>, id: string): (r: Option<nat>)
    ensures r.Some? ==> r.value < |previous| && previous[r.value].id == id
    ensures r.Some? ==> forall j :: 0 <= j < r.value ==> previous[j].id != id
    ensures r.None? ==> forall j :: 0 <= j < |previous| ==> previous[j].id != id
  {
    FindFirst(previous, (n: Node) => n.id == id)
  }

  /** One draw of `Math.random()` for x and one for y, per note. */
  predicate InUnit(r: (real, real)) {
    0.0 <= r.0 < 1.0 && 0.0 <= r.1 < 1.0
  }

  /** `notes.map(...)`: the previous node with the note's id, unchanged, or a fresh node. */
  function BuildNodes(notes: seq<Note>, previous: seq<Node>, width: real, height: real, rand: seq<(real, real)>): (r: seq<Node>)
    requires |rand| == |notes|
    ensures |r| == |notes|
    ensures forall i :: 0 <= i < |notes| ==> r[i].id == notes[i].id
    ensures forall i :: 0 <= i < |notes| && PreviousNode(previous, notes[i].id).Some? ==>
      r[i] == previous[PreviousNode(previous, notes[i].id).value]
    ensures forall i :: 0 <= i < |notes| && PreviousNode(previous, notes[i].id).None? ==>
      r[i].title == notes[i].title && r[i].vx == 0.0 && r[i].vy == 0.0
      && r[i].radius == BaseRadius + RadiusPerMention * MentionCount(notes, notes[i].title)
      && (0.0 < width && InUnit(rand[i]) ==> width / 4.0 <= r[i].x < 3.0 * width / 4.0)
      && (0.0 < height && InUnit(rand[i]) ==> height / 4.0 <= r[i].y < 3.0 * height / 4.0)
  {
    seq(|notes|, i requires 0 <= i < |notes| =>
      match PreviousNode(previous, notes[i].id) {
        case Some(j) => previous[j]
        case None => FreshNode(notes[i], notes, width, height, rand[i].0, rand[i].1)
      })
  }

  /** Nodes are never smaller than the base radius after a rebuild. */
  lemma BuildNodesRadius(notes: seq<Note>, previous: seq<Node>, width: real, height: real, rand: seq<(real, real)>)
    requires |rand| == |notes|
    requires forall n :: n in previous ==> n.radius >= BaseRadius
    ensures forall n :: n in BuildNodes(notes, previous, width, height, rand) ==> n.radius >= BaseRadius
  {
    var r := BuildNodes(notes, previous, width, height, rand);
    forall n | n in r ensures n.radius >= BaseRadius {
      var i :| 0 <= i < |r| && r[i] == n;
      if PreviousNode(previous, notes[i].id).Some? {
        assert n in previous;
      }
    }
  }

  /** Rebuilding from an unchanged collection whose ids are distinct keeps every
      node exactly: position, velocity, radius and title, whatever the new draws. */
  lemma BuildNodesIdempotent(notes: seq<Note>, previous: seq<Node>, width: real, height: real,
                             rand: seq<(real, real)>, width': real, height': real, rand': seq<(real, real)>)
    requires |rand| == |notes| && |rand'| == |notes|
    requires forall i, j :: 0 <= i < j < |notes| ==> notes[i].id != notes[j].id
    ensures var once := BuildNodes(notes, previous, width, height, rand);
      BuildNodes(notes, once, width', height', rand') == once
  {
    var once := BuildNodes(notes, previous, width, height, rand);
    var twice := BuildNodes(notes, once, width', height', rand');
    forall i | 0 <= i < |notes| ensures twice[i] == once[i] {
      OwnNodeFound(notes, once, i);
    }
  }

  /** With distinct ids, the node at a note's position is the one found for its id. */
  lemma OwnNodeFound(notes: seq<Note>, nodes: seq<Node>, i: nat)
    requires |nodes| == |notes| && i < |notes|
    requires forall j :: 0 <= j < |notes| ==> nodes[j].id == notes[j].id
    requires forall j, k :: 0 <= j < k < |notes| ==> notes[j].id != notes[k].id
    ensures PreviousNode(nodes, notes[i].id) == Some(i)
  {
    var found := PreviousNode(nodes, notes[i].id);
    assert nodes[i].id == notes[i].id;
    assert found.Some? && found.value <= i;
    assert nodes[found.value].id == notes[found.value].id;
  }

  // ---------------------------------------------------------------- links

  /** `content.match(/\[\[(.*?)\]\]/g)` followed by `match.slice(2, -2)`: the
      verbatim interior of every marker, in text order. */
  function MarkerTexts(content: string): (r: seq<string>)
    ensures |r| == |Spans(content, 0)|
    ensures forall k :: 0 <= k < |r| ==> r[k] == Interior(content, Spans(content, 0)[k])
  {
    var sp := Spans(content, 0);
    seq(|sp|, k requires 0 <= k < |sp| => Interior(content, sp[k]))
  }

  /** The link one marker contributes: to the first note whose title equals the
      marker text ignoring case, or nothing when no title does. */
  function ResolveLink(source: string, target: string, notes: seq<Note>): (r: seq<Link>)
    ensures |r| <= 1
    ensures |r| == 1 <==> FirstTitleMatch(notes, target).Some?
    ensures |r| == 1 ==> r[0] == Link(source, notes[FirstTitleMatch(notes, target).value].id)
  {
    match FirstTitleMatch(notes, target) {
      case Some(j) => [Link(source, notes[j].id)]
      case None => []
    }
  }

  /** The links of one note: its marker texts resolved in order, unresolved ones dropped. */
  function MarkerLinks(source: string, targets: seq<string>, notes: seq<Note>): (r: seq<Link>)
    decreases |targets|
    ensures forall l :: l in r ==> l.source == source
  {
    if targets == [] then []
    else MarkerLinks(source, targets[..|targets| - 1], notes) + ResolveLink(source, targets[|targets| - 1], notes)
  }

  /** The links of every note of `sources`, note after note. */
  function LinksFrom(sources: seq<Note>, notes: seq<Note>): (r: seq<Link>)
    decreases |sources|
    ensures forall l :: l in r ==> HasId(sources, l.source)
  {
    if sources == [] then []
    else
      var last := sources[|sources| - 1];
      LinksFrom(sources[..|sources| - 1], notes) + MarkerLinks(last.id, MarkerTexts(last.content), notes)
  }

  /** A note's links all leave that note, end at a note of the collection, and are
      no more numerous than its markers. */
  lemma {:induction false} MarkerLinksShape(source: string, targets: seq<string>, notes: seq<Note>)
    ensures |MarkerLinks(source, targets, notes)| <= |targets|
    ensures forall l :: l in MarkerLinks(source, targets, notes) ==> l.source == source && HasId(notes, l.target)
    decreases |targets|
  {
    if targets != [] {
      MarkerLinksShape(source, targets[..|targets| - 1], notes);
      var t := targets[|targets| - 1];
      if FirstTitleMatch(notes, t).Some? {
        var j := FirstTitleMatch(notes, t).value;
        assert notes[j].id == ResolveLink(source, t, notes)[0].target;
      }
    }
  }

  /** When every marker resolves, the k-th link is the k-th marker's: each marker
      yields exactly one link, to the first note with that title. */
  lemma {:induction false} MarkerLinksAllResolved(source: string, targets: seq<string>, notes: seq<Note>)
    requires forall k :: 0 <= k < |targets| ==> FirstTitleMatch(notes, targets[k]).Some?
    ensures |MarkerLinks(source, targets, notes)| == |targets|
    ensures forall k :: 0 <= k < |targets| ==>
      MarkerLinks(source, targets, notes)[k] == Link(source, notes[FirstTitleMatch(notes, targets[k]).value].id)
    decreases |targets|
  {
    if targets != [] {
      MarkerLinksAllResolved(source, targets[..|targets| - 1], notes);
    }
  }

  /** Markers that resolve to no title produce no link at all. */
  lemma {:induction false} MarkerLinksNoneResolved(source: string, targets: seq<string>, notes: seq<Note>)
    requires forall k :: 0 <= k < |targets| ==> FirstTitleMatch(notes, targets[k]).None?
    ensures MarkerLinks(source, targets, notes) == []
    decreases |targets|
  {
    if targets != [] {
      MarkerLinksNoneResolved(source, targets[..|targets| - 1], notes);
    }
  }

  /** Every link of a rebuild leaves a note of `sources` and ends at a note of `notes`. */
  lemma {:induction false} LinksFromEndpoints(sources: seq<Note>, notes: seq<Note>)
    ensures forall l :: l in LinksFrom(sources, notes) ==> HasId(sources, l.source) && HasId(notes, l.target)
    decreases |sources|
  {
    if sources != [] {
      var init := sources[..|sources| - 1];
      var last := sources[|sources| - 1];
      LinksFromEndpoints(init, notes);
      MarkerLinksShape(last.id, MarkerTexts(last.content), notes);
      forall l | l in LinksFrom(sources, notes) ensures HasId(sources, l.source) && HasId(notes, l.target) {
        if l in LinksFrom(init, notes) {
          var i :| 0 <= i < |init| && init[i].id == l.source;
          assert sources[i] == init[i];
        } else {
          assert sources[|sources| - 1].id == l.source;
        }
      }
    }
  }

  /** A marker of note `a` whose text names note `b` case-insensitively, with no
      earlier note of the same title, yields the link from `a` to `b`. */
  lemma MarkerYieldsLink(notes: seq<Note>, a: nat, k: nat, b: nat)
    requires a < |notes| && b < |notes|
    requires k < |MarkerTexts(notes[a].content)|
    requires FirstTitleMatch(notes, MarkerTexts(notes[a].content)[k]) == Some(b)
    ensures Link(notes[a].id, notes[b].id) in LinksFrom(notes, notes)
  {
    var texts := MarkerTexts(notes[a].content);
    MarkerInLinks(notes[a].id, texts, notes, k);
    LinksFromContains(notes, notes, a);
  }

  lemma {:induction false} MarkerInLinks(source: string, targets: seq<string>, notes: seq<Note>, k: nat)
    requires k < |targets| && FirstTitleMatch(notes, targets[k]).Some?
    ensures Link(source, notes[FirstTitleMatch(notes, targets[k]).value].id) in MarkerLinks(source, targets, notes)
    decreases |targets|
  {
    if k < |targets| - 1 {
      MarkerInLinks(source, targets[..|targets| - 1], notes, k);
    }
  }

  lemma {:induction false} LinksFromContains(sources: seq<Note>, notes: seq<Note>, a: nat)
    requires a < |sources|
    ensures forall l :: l in MarkerLinks(sources[a].id, MarkerTexts(sources[a].content), notes) ==> l in LinksFrom(sources, notes)
    decreases |sources|
  {
    var init := sources[..|sources| - 1];
    var last := sources[|sources| - 1];
    assert LinksFrom(sources, notes) == LinksFrom(init, notes) + MarkerLinks(last.id, MarkerTexts(last.content), notes);
    if a < |sources| - 1 {
      LinksFromContains(init, notes, a);
      assert init[a] == sources[a];
    }
  }

  /** One more marker appends what it resolves to. */
  lemma MarkerLinksStep(source: string, targets: seq<string>, j: nat, notes: seq<Note>)
    requires j < |targets|
    ensures MarkerLinks(source, targets[..j + 1], notes)
      == MarkerLinks(source, targets[..j], notes) + ResolveLink(source, targets[j], notes)
  {
    assert targets[..j + 1][..j] == targets[..j];
  }

  /** The inner `forEach`: one link pushed per marker that resolves, in marker order. */
  method NoteLinks(note: Note, notes: seq<Note>) returns (links: seq<Link>)
    ensures links == MarkerLinks(note.id, MarkerTexts(note.content), notes)
  {
    var matches := MarkerTexts(note.content);
    links := [];
    var j := 0;
    while j < |matches|
      invariant 0 <= j <= |matches|
      invariant links == MarkerLinks(note.id, matches[..j], notes)
    {
      var target := FirstTitleMatch(notes, matches[j]);
      MarkerLinksStep(note.id, matches, j, notes);
      if target.Some? {
        links := links + [Link(note.id, notes[target.value].id)];
      }
      j := j + 1;
    }
    assert matches[..j] == matches;
  }

  /** The outer `forEach` over the notes, appending each note's links. */
  method CollectLinks(notes: seq<Note>) returns (links: seq<Link>)
    ensures links == LinksFrom(notes, notes)
  {
    links := [];
    var i := 0;
    while i < |notes|
      invariant 0 <= i <= |notes|
      invariant links == LinksFrom(notes[..i], notes)
    {
      var own := NoteLinks(notes[i], notes);
      assert notes[..i + 1][..i] == notes[..i];
      assert LinksFrom(notes[..i + 1], notes) == LinksFrom(notes[..i], notes) + own;
      links := links + own;
      i := i + 1;
    }
    assert notes[..i] == notes;
  }

  // ---------------------------------------------------------------- interaction

  /** `Math.sqrt(dx * dx + dy * dy) < node.radius + 15`, squared on both sides:
      the two agree because a square root is never negative. */
  predicate Hits(n: Node, px: real, py: real) {
    var dx := n.x - px;
    var dy := n.y - py;
    var reach := (n.radius + HitMargin) as real;
    0.0 < reach && dx * dx + dy * dy < reach * reach
  }

  /** `nodes.find(hit)`, reduced to the id: the first node in collection order whose
      hit circle holds the pointer. */
  function HitTest(nodes: seq<Node>, px: real, py: real): (r: Option<string>)
    ensures r.None? <==> forall i :: 0 <= i < |nodes| ==> !Hits(nodes[i], px, py)
    ensures r.Some? ==> exists i :: 0 <= i < |nodes| && nodes[i].id == r.value && Hits(nodes[i], px, py)
                               && (forall j :: 0 <= j < i ==> !Hits(nodes[j], px, py))
  {
    match FindFirst(nodes, (n: Node) => Hits(n, px, py)) {
      case Some(i) => Some(nodes[i].id)
      case None => None
    }
  }

  /** A pointer at the centre of any node hits some node, the first such node
      coming no later: every radius is at least the base radius. */
  lemma CentreHits(nodes: seq<Node>, i: nat)
    requires i < |nodes| && nodes[i].radius >= BaseRadius
    ensures HitTest(nodes, nodes[i].x, nodes[i].y).Some?
  {
    var reach := (nodes[i].radius + HitMargin) as real;
    assert 0.0 < reach * reach;
    assert Hits(nodes[i], nodes[i].x, nodes[i].y);
  }

  /** `isRelatedToHover`: a link is emphasised when either end is hovered. */
  function LinkEmphasised(hovered: Option<string>, source: Node, target: Node): (r: bool)
    ensures hovered.None? ==> !r
    ensures r <==> hovered.Some? && (hovered.value == source.id || hovered.value == target.id)
  {
    hovered == Some(source.id) || hovered == Some(target.id)
  }

  /** The radius a node is painted with: grown while hovered. */
  function PaintedRadius(n: Node, hovered: Option<string>): (r: int)
    ensures r >= n.radius
    ensures r > n.radius <==> hovered == Some(n.id)
  {
    n.radius + (if hovered == Some(n.id) then HoverGrowth else 0)
  }

  /** A label is drawn for the hovered node and for every node larger than the label radius. */
  function ShowsLabel(n: Node, hovered: Option<string>): (r: bool)
    ensures hovered == Some(n.id) ==> r
    ensures hovered != Some(n.id) ==> (r <==> n.radius > LabelRadius)
  {
    hovered == Some(n.id) || n.radius > LabelRadius
  }

  /** A fresh node is labelled without hovering exactly when some note mentions its title. */
  lemma FreshLabel(note: Note, notes: seq<Note>, width: real, height: real, rx: real, ry: real)
    ensures ShowsLabel(FreshNode(note, notes, width, height, rx, ry), None) <==> MentionCount(notes, note.title) >= 1
  {
  }

  /** The host callbacks a click fires: select then close, when a hovered id is set and non-empty. */
  function ClickEvents(hovered: Option<string>): (r: seq<Event>)
    ensures r != [] <==> hovered.Some? && hovered.value != ""
    ensures r != [] ==> r == [NoteSelected(hovered.value), Closed]
  {
    if hovered.Some? && hovered.value != "" then [NoteSelected(hovered.value), Closed] else []
  }

  /** A click right after a pointer move onto the centre of a node whose id is
      non-empty selects that node or one listed before it, and closes the view. */
  lemma ClickOnCentreSelects(nodes: seq<Node>, i: nat)
    requires i < |nodes| && nodes[i].radius >= BaseRadius
    requires forall n :: n in nodes ==> n.id != ""
    ensures var ev := ClickEvents(HitTest(nodes, nodes[i].x, nodes[i].y));
      |ev| == 2 && ev[1] == Closed && ev[0].NoteSelected?
      && (exists j :: 0 <= j <= i && nodes[j].id == ev[0].id)
  {
    CentreHits(nodes, i);
    var hit := HitTest(nodes, nodes[i].x, nodes[i].y);
    var j :| 0 <= j < |nodes| && nodes[j].id == hit.value && Hits(nodes[j], nodes[i].x, nodes[i].y)
      && forall m :: 0 <= m < j ==> !Hits(nodes[m], nodes[i].x, nodes[i].y);
    assert Hits(nodes[i], nodes[i].x, nodes[i].y);
    assert nodes[j] in nodes;
  }

  // ---------------------------------------------------------------- the view's state

  predicate HasNode(nodes: seq<Node>, id: string) {
    exists i :: 0 <= i < |nodes| && nodes[i].id == id
  }

  /** The references the view keeps between frames: nodes, links and the hovered id. */
  class GraphState {
    var nodes: seq<Node>
    var links: seq<Link>
    var hovered: Option<string>

    /** Every node is at least base size, and both ends of every link are drawn nodes. */
    ghost predicate Valid()
      reads this
    {
      (forall n :: n in nodes ==> n.radius >= BaseRadius)
      && (forall l :: l in links ==> HasNode(nodes, l.source) && HasNode(nodes, l.target))
    }

    constructor ()
      ensures Valid()
      ensures nodes == [] && links == [] && hovered == None
    {
      nodes := [];
      links := [];
      hovered := None;
    }

    /** The rebuild that runs whenever the note collection changes. The hovered id is left as it was. */
    method Rebuild(notes: seq<Note>, width: real, height: real, rand: seq<(real, real)>)
      requires Valid()
      requires |rand| == |notes|
      modifies this
      ensures Valid()
      ensures nodes == BuildNodes(notes, old(nodes), width, height, rand)
      ensures links == LinksFrom(notes, notes)
      ensures hovered == old(hovered)
    {
      var newNodes := BuildNodes(notes, nodes, width, height, rand);
      BuildNodesRadius(notes, nodes, width, height, rand);
      var newLinks := CollectLinks(notes);
      LinksFromEndpoints(notes, notes);
      forall l | l in newLinks ensures HasNode(newNodes, l.source) && HasNode(newNodes, l.target) {
        var a :| 0 <= a < |notes| && notes[a].id == l.source;
        var b :| 0 <= b < |notes| && notes[b].id == l.target;
        assert newNodes[a].id == l.source && newNodes[b].id == l.target;
      }
      nodes := newNodes;
      links := newLinks;
    }

    /** The pointer-move handler: the hovered id becomes the hit test's result, and
        `changed` reports whether it differed, which is when the host is notified. */
    method PointerMove(px: real, py: real) returns (changed: bool)
      requires Valid()
      modifies this`hovered
      ensures Valid()
      ensures hovered == HitTest(nodes, px, py)
      ensures changed <==> HitTest(nodes, px, py) != old(hovered)
    {
      var newId := HitTest(nodes, px, py);
      changed := newId != hovered;
      if changed {
        hovered := newId;
      }
    }

    /** The click handler. */
    method Click() returns (events: seq<Event>)
      ensures events == ClickEvents(hovered)
    {
      if hovered.Some? && hovered.value != "" {
        events := [NoteSelected(hovered.value), Closed];
      } else {
        events := [];
      }
    }
  }
}

/**
 * The canvas of src/components/ContentPreview.tsx: the component-state
 * updaters behind drop, content edit, style edit and move, and the editor
 * object that holds the component list and replaces it on every event.
 */
module ContentPreview {
  import opened Wrappers
  import opened ComponentTree

  const DEFAULT_COLOR: string := "#000000"

  /** JavaScript truthiness of an optional string: `undefined`, `null` and `''` are falsy. */
  predicate Truthy(s: Option<string>) {
    s.Some? && s.value != ""
  }

  /** The node `handleDrop` builds from a dragged type tag and a fresh id. */
  function NewComponent(freshId: string, itemType: string): (c: Component)
    ensures c.id == freshId && c.kind == itemType
    ensures c.content.Some? <==> itemType == HEADLINE || itemType == SUBHEADER || itemType == BODY
    ensures c.content.Some? ==> c.content.value == ""
    ensures c.children.Present? <==> IsContainerType(itemType)
    ensures Kids(c) == []
    ensures c.styles == Some(map["color" := DEFAULT_COLOR])
  {
    Component(
      freshId,
      itemType,
      if itemType in [HEADLINE, SUBHEADER, BODY] then Some("") else None,
      Some(map["color" := DEFAULT_COLOR]),
      if IsContainerType(itemType) then Present([]) else Absent)
  }

  /** `prev.map(comp => comp.id === id ? g(comp) : comp)`: only top-level nodes are visited. */
  function MapMatching(prev: seq<Component>, id: string, g: Component -> Component): (r: seq<Component>)
    ensures |r| == |prev|
    ensures forall i :: 0 <= i < |prev| ==> r[i] == if prev[i].id == id then g(prev[i]) else prev[i]
  {
    if prev == [] then []
    else [if prev[0].id == id then g(prev[0]) else prev[0]] + MapMatching(prev[1..], id, g)
  }

  /** `{ ...comp, children: [...(comp.children || []), n] }` */
  function AppendChild(n: Component): Component -> Component {
    (c: Component) => c.(children := Present(Kids(c) + [n]))
  }

  /** The state updater of `handleDrop(parentId, item)`. */
  function Drop(prev: seq<Component>, parentId: Option<string>, itemType: string, freshId: string): (r: seq<Component>)
    ensures !Truthy(parentId) ==>
      |r| == |prev| + 1 && r[..|prev|] == prev && r[|prev|] == NewComponent(freshId, itemType)
    ensures Truthy(parentId) ==>
      |r| == |prev| &&
      forall i :: 0 <= i < |prev| ==>
        r[i] == if prev[i].id == parentId.value
                then prev[i].(children := Present(Kids(prev[i]) + [NewComponent(freshId, itemType)]))
                else prev[i]
  {
    var n := NewComponent(freshId, itemType);
    if Truthy(parentId) then MapMatching(prev, parentId.value, AppendChild(n))
    else prev + [n]
  }

  /** The state updater of `handleUpdate(id, content)`. */
  function Update(prev: seq<Component>, id: string, content: string): (r: seq<Component>)
    ensures |r| == |prev|
    ensures forall i :: 0 <= i < |prev| ==>
      r[i] == if prev[i].id == id then prev[i].(content := Some(content)) else prev[i]
  {
    MapMatching(prev, id, (c: Component) => c.(content := Some(content)))
  }

  /** The state updater of `handleStyleChange(id, styles)`. */
  function SetStyles(prev: seq<Component>, id: string, styles: Styles): (r: seq<Component>)
    ensures |r| == |prev|
    ensures forall i :: 0 <= i < |prev| ==>
      r[i] == if prev[i].id == id then prev[i].(styles := Some(styles)) else prev[i]
  {
    MapMatching(prev, id, (c: Component) => c.(styles := Some(styles)))
  }

  /** The state updater of `handleMove(dragId, hoverId)`, as a function of the previous state. */
  function Move(prev: seq<Component>, dragId: string, hoverId: string): (r: seq<Component>)
    ensures Find(prev, dragId).None? || Find(prev, hoverId).None? ==> r == prev
    ensures r != prev ==> Count(prev, dragId) > 0 && Count(prev, hoverId) > 0
  {
    FindNoneIff(prev, dragId);
    FindNoneIff(prev, hoverId);
    var drag := Find(prev, dragId);
    if drag.None? || Find(prev, hoverId).None? then prev
    else InsertAfter(Remove(prev, dragId), hoverId, drag.value)
  }

  // ---------------------------------------------------------------------------
  // The loop-based procedures of `handleMove`

  /** `findComponent`: a `for` loop with early return, recursing into `children`. */
  method FindComponent(comps: seq<Component>, id: string) returns (found: Option<Component>)
    ensures found == Find(comps, id)
    decreases comps
  {
    var i := 0;
    while i < |comps|
      invariant 0 <= i <= |comps|
      invariant Find(comps, id) == Find(comps[i..], id)
    {
      var comp := comps[i];
      assert comps[i..][0] == comp && comps[i..][1..] == comps[i + 1..];
      if comp.id == id {
        return Some(comp);
      }
      match comp.children {
        case Absent =>
        case Present(kids) =>
          var inner := FindComponent(kids, id);
          if inner.Some? {
            return inner;
          }
      }
      i := i + 1;
    }
    return None;
  }

  /** `removeComponent`: a filter whose callback rewrites each survivor's `children`. */
  method RemoveComponent(comps: seq<Component>, id: string) returns (kept: seq<Component>)
    ensures kept == Remove(comps, id)
    decreases comps
  {
    kept := [];
    var i := 0;
    while i < |comps|
      invariant 0 <= i <= |comps|
      invariant kept + Remove(comps[i..], id) == Remove(comps, id)
    {
      var comp := comps[i];
      assert comps[i..][0] == comp && comps[i..][1..] == comps[i + 1..];
      var piece: seq<Component> := [];
      if comp.id != id {
        match comp.children {
          case Absent =>
          case Present(kids) =>
            var survivors := RemoveComponent(kids, id);
            comp := comp.(children := Present(survivors));
        }
        piece := [comp];
      }
      assert Remove(comps[i..], id) == piece + Remove(comps[i + 1..], id);
      ConcatAssoc(kept, piece, Remove(comps[i + 1..], id));
      kept := kept + piece;
      i := i + 1;
    }
  }

  /** `insertAfter`: a `reduce` that accumulates the new sibling list. */
  method InsertAfterComponent(comps: seq<Component>, afterId: string, newComp: Component) returns (acc: seq<Component>)
    ensures acc == InsertAfter(comps, afterId, newComp)
    decreases comps
  {
    acc := [];
    var i := 0;
    while i < |comps|
      invariant 0 <= i <= |comps|
      invariant acc + InsertAfter(comps[i..], afterId, newComp) == InsertAfter(comps, afterId, newComp)
    {
      var comp := comps[i];
      assert comps[i..][0] == comp && comps[i..][1..] == comps[i + 1..];
      var piece: seq<Component>;
      if comp.id == afterId {
        piece := [comp, newComp];
      } else {
        match comp.children {
          case Absent =>
          case Present(kids) =>
            var inserted := InsertAfterComponent(kids, afterId, newComp);
            comp := comp.(children := Present(inserted));
        }
        piece := [comp];
      }
      assert InsertAfter(comps[i..], afterId, newComp) == piece + InsertAfter(comps[i + 1..], afterId, newComp);
      ConcatAssoc(acc, piece, InsertAfter(comps[i + 1..], afterId, newComp));
      acc := acc + piece;
      i := i + 1;
    }
  }

  /** The body of the `handleMove` updater: find both nodes, remove the dragged one, re-insert it. */
  method ComputeMove(prev: seq<Component>, dragId: string, hoverId: string) returns (next: seq<Component>)
    ensures next == Move(prev, dragId, hoverId)
  {
    var dragComponent := FindComponent(prev, dragId);
    var hoverComponent := FindComponent(prev, hoverId);
    if dragComponent.None? || hoverComponent.None? {
      return prev;
    }
    var newComponents := RemoveComponent(prev, dragId);
    newComponents := InsertAfterComponent(newComponents, hoverId, dragComponent.value);
    return newComponents;
  }

  // ---------------------------------------------------------------------------
  // Drop, content and style updates

  /**
   * Update-by-id touches top-level nodes only: an id that no top-level node
   * carries (absent, or only nested) leaves the forest as it was.
   */
  lemma MissingTopLevelIdIsNoop(prev: seq<Component>, id: string, content: string, styles: Styles, itemType: string, freshId: string)
    requires forall i :: 0 <= i < |prev| ==> prev[i].id != id
    ensures Update(prev, id, content) == prev
    ensures SetStyles(prev, id, styles) == prev
    ensures id != "" ==> Drop(prev, Some(id), itemType, freshId) == prev
  {
  }

  /** A later content edit of the same node replaces an earlier one; so does a later style edit. */
  lemma LastEditWins(prev: seq<Component>, id: string, c1: string, c2: string, s1: Styles, s2: Styles)
    ensures Update(Update(prev, id, c1), id, c2) == Update(prev, id, c2)
    ensures SetStyles(SetStyles(prev, id, s1), id, s2) == SetStyles(prev, id, s2)
  {
  }

  /** Content and style edits touch different fields, so the order of a blur's two commits does not matter. */
  lemma ContentAndStyleCommute(prev: seq<Component>, id: string, content: string, styles: Styles)
    ensures SetStyles(Update(prev, id, content), id, styles) == Update(SetStyles(prev, id, styles), id, content)
  {
  }

  /** A map over the top level that keeps ids and children keeps every id count. */
  lemma {:induction false} MapMatchingKeepsCounts(prev: seq<Component>, id: string, g: Component -> Component, x: string)
    requires forall c: Component :: g(c).id == c.id && g(c).children == c.children
    ensures Count(MapMatching(prev, id, g), x) == Count(prev, x)
  {
    if prev != [] {
      var r := MapMatching(prev, id, g);
      assert r == [r[0]] + MapMatching(prev[1..], id, g);
      assert prev == [prev[0]] + prev[1..];
      CountCons(r[0], MapMatching(prev[1..], id, g), x);
      CountCons(prev[0], prev[1..], x);
      MapMatchingKeepsCounts(prev[1..], id, g, x);
    }
  }

  /** A top-level map that keeps each node's type and children keeps the container invariant. */
  lemma {:induction false} MapMatchingKeepsShape(prev: seq<Component>, id: string, g: Component -> Component)
    requires forall c: Component :: g(c).kind == c.kind && g(c).children == c.children
    requires WellShaped(prev)
    ensures WellShaped(MapMatching(prev, id, g))
  {
    if prev != [] {
      var r := MapMatching(prev, id, g);
      assert r == [r[0]] + MapMatching(prev[1..], id, g);
      assert prev == [prev[0]] + prev[1..];
      WellShapedCons(prev[0], prev[1..]);
      MapMatchingKeepsShape(prev[1..], id, g);
      WellShapedCons(r[0], MapMatching(prev[1..], id, g));
    }
  }

  /** Content and style edits keep children present exactly on the container types. */
  lemma UpdatesKeepShape(prev: seq<Component>, id: string, content: string, styles: Styles)
    requires WellShaped(prev)
    ensures WellShaped(Update(prev, id, content))
    ensures WellShaped(SetStyles(prev, id, styles))
  {
    MapMatchingKeepsShape(prev, id, (c: Component) => c.(content := Some(content)));
    MapMatchingKeepsShape(prev, id, (c: Component) => c.(styles := Some(styles)));
  }

  /** Content and style edits never add, drop or move a node. */
  lemma UpdatesKeepNodes(prev: seq<Component>, id: string, content: string, styles: Styles, x: string)
    ensures Count(Update(prev, id, content), x) == Count(prev, x)
    ensures Count(SetStyles(prev, id, styles), x) == Count(prev, x)
  {
    MapMatchingKeepsCounts(prev, id, (c: Component) => c.(content := Some(content)), x);
    MapMatchingKeepsCounts(prev, id, (c: Component) => c.(styles := Some(styles)), x);
  }

  lemma {:induction false} AppendChildCounts(prev: seq<Component>, p: string, n: Component, x: string)
    requires Kids(n) == []
    ensures Count(MapMatching(prev, p, AppendChild(n)), x)
         == Count(prev, x) + if n.id == x then TopMatches(prev, p) else 0
  {
    if prev != [] {
      var c, rest := prev[0], prev[1..];
      var r := MapMatching(prev, p, AppendChild(n));
      assert r == [r[0]] + MapMatching(rest, p, AppendChild(n));
      assert prev == [c] + rest;
      CountCons(r[0], MapMatching(rest, p, AppendChild(n)), x);
      CountCons(c, rest, x);
      AppendChildCounts(rest, p, n, x);
      if c.id == p {
        assert Kids(r[0]) == Kids(c) + [n];
        CountAppend(Kids(c), [n], x);
        CountCons(n, [], x);
        assert [n] + [] == [n];
      }
    }
  }

  /** A drop adds nodes with the new id only: one at the top level, or one under each top-level parent match. */
  lemma DropCounts(prev: seq<Component>, parentId: Option<string>, itemType: string, freshId: string)
    ensures forall x :: (Count(Drop(prev, parentId, itemType, freshId), x) ==
      Count(prev, x) + if x != freshId then 0 else if Truthy(parentId) then TopMatches(prev, parentId.value) else 1)
  {
    var n := NewComponent(freshId, itemType);
    var r := Drop(prev, parentId, itemType, freshId);
    if Truthy(parentId) {
      forall x ensures Count(r, x) == Count(prev, x) + if n.id == x then TopMatches(prev, parentId.value) else 0 {
        AppendChildCounts(prev, parentId.value, n, x);
      }
    } else {
      forall x ensures Count(r, x) == Count(prev, x) + if n.id == x then 1 else 0 {
        CountAppend(prev, [n], x);
        CountCons(n, [], x);
        assert [n] + [] == [n];
      }
    }
  }

  /**
   * With a fresh id, a drop keeps every id unique, and the new id appears
   * exactly when the drop lands: at top level, or under a top-level parent.
   */
  lemma DropKeepsIdsUnique(prev: seq<Component>, parentId: Option<string>, itemType: string, freshId: string)
    requires UniqueIds(prev)
    requires Count(prev, freshId) == 0
    ensures UniqueIds(Drop(prev, parentId, itemType, freshId))
    ensures Count(Drop(prev, parentId, itemType, freshId), freshId)
         == if !Truthy(parentId) || parentId.value in TopIds(prev) then 1 else 0
  {
    DropCounts(prev, parentId, itemType, freshId);
    if Truthy(parentId) {
      var p := parentId.value;
      if p in TopIds(prev) {
        var i :| 0 <= i < |prev| && TopIds(prev)[i] == p;
        TopIdCounted(prev, i);
        TopMatchesPositive(prev, p, i);
      } else {
        TopMatchesZero(prev, p);
      }
    }
  }


  lemma {:induction false} TopMatchesPositive(f: seq<Component>, p: string, i: nat)
    requires i < |f| && f[i].id == p
    ensures TopMatches(f, p) > 0
  {
    if i > 0 {
      TopMatchesPositive(f[1..], p, i - 1);
    }
  }

  lemma {:induction false} TopMatchesZero(f: seq<Component>, p: string)
    requires p !in TopIds(f)
    ensures TopMatches(f, p) == 0
  {
    if f != [] {
      assert TopIds(f)[1..] == TopIds(f[1..]);
      TopMatchesZero(f[1..], p);
    }
  }

  /** Every node after a drop is an old node, the new node, or the top-level parent with the new child appended. */
  lemma {:induction false} NodesAfterAppendChild(prev: seq<Component>, p: string, n: Component, c: Component)
    requires Kids(n) == []
    requires c in Nodes(MapMatching(prev, p, AppendChild(n)))
    ensures c in Nodes(prev) || c == n
         || exists d :: d in prev && d.id == p && c == d.(children := Present(Kids(d) + [n]))
  {
    var h, rest := prev[0], prev[1..];
    var r := MapMatching(prev, p, AppendChild(n));
    var rest' := MapMatching(rest, p, AppendChild(n));
    assert r == [r[0]] + rest';
    assert prev == [h] + rest;
    NodesCons(r[0], rest');
    NodesCons(h, rest);
    if c in Nodes(rest') {
      NodesAfterAppendChild(rest, p, n, c);
      if exists d :: d in rest && d.id == p && c == d.(children := Present(Kids(d) + [n])) {
        var d :| d in rest && d.id == p && c == d.(children := Present(Kids(d) + [n]));
        assert d in prev;
      }
    } else if h.id == p && c != r[0] {
      assert c in Nodes(Kids(h) + [n]);
      NodesAppend(Kids(h), [n]);
      NodesCons(n, []);
      assert [n] + [] == [n];
    }
  }

  /**
   * A drop keeps every node's `children` present exactly for the container
   * types, provided a parent that is named is a container; a drop onto a
   * top-level leaf would give that leaf children.
   */
  lemma DropKeepsShape(prev: seq<Component>, parentId: Option<string>, itemType: string, freshId: string)
    requires WellShaped(prev)
    requires Truthy(parentId) ==>
      forall i :: 0 <= i < |prev| && prev[i].id == parentId.value ==> IsContainerType(prev[i].kind)
    ensures WellShaped(Drop(prev, parentId, itemType, freshId))
  {
    var n := NewComponent(freshId, itemType);
    var r := Drop(prev, parentId, itemType, freshId);
    NodesCons(n, []);
    assert [n] + [] == [n];
    if Truthy(parentId) {
      forall c | c in Nodes(r) ensures c.children.Present? <==> IsContainerType(c.kind) {
        NodesAfterAppendChild(prev, parentId.value, n, c);
        if exists d :: d in prev && d.id == parentId.value && c == d.(children := Present(Kids(d) + [n])) {
          var d :| d in prev && d.id == parentId.value && c == d.(children := Present(Kids(d) + [n]));
          var i :| 0 <= i < |prev| && prev[i] == d;
        } else if c in Nodes(prev) {
        }
      }
    } else {
      NodesAppend(prev, [n]);
    }
  }

  // ---------------------------------------------------------------------------
  // Move

  /**
   * A move keeps children present exactly on the container types, whether
   * it relocates the dragged subtree or loses it.
   */
  lemma MoveKeepsShape(prev: seq<Component>, dragId: string, hoverId: string)
    requires WellShaped(prev)
    ensures WellShaped(Move(prev, dragId, hoverId))
  {
    var drag := Find(prev, dragId);
    if drag.Some? && Find(prev, hoverId).Some? {
      FoundKeepsShape(prev, dragId);
      RemoveKeepsShape(prev, dragId);
      InsertAfterKeepsShape(Remove(prev, dragId), hoverId, drag.value);
    }
  }

  /** A move whose dragged or hovered id is absent from the whole tree returns the old state. */
  lemma MoveMissingIsNoop(prev: seq<Component>, dragId: string, hoverId: string)
    requires Count(prev, dragId) == 0 || Count(prev, hoverId) == 0
    ensures Move(prev, dragId, hoverId) == prev
  {
    FindNoneIff(prev, dragId);
    FindNoneIff(prev, hoverId);
  }

  /**
   * With unique ids, a move onto a node outside the dragged subtree keeps
   * every node exactly once and puts the dragged subtree directly after the
   * hovered node.
   */
  lemma MoveRelocates(prev: seq<Component>, dragId: string, hoverId: string)
    requires UniqueIds(prev)
    requires Find(prev, dragId).Some? && Find(prev, hoverId).Some?
    requires Count([Find(prev, dragId).value], hoverId) == 0
    ensures forall x :: Count(Move(prev, dragId, hoverId), x) == Count(prev, x)
    ensures UniqueIds(Move(prev, dragId, hoverId))
    ensures FollowsIn(Move(prev, dragId, hoverId), hoverId, Find(prev, dragId).value)
  {
    var d := Find(prev, dragId).value;
    var rest := Remove(prev, dragId);
    FindNoneIff(prev, hoverId);
    RemoveSubtreeCount(prev, dragId, hoverId);
    forall x ensures Count(Move(prev, dragId, hoverId), x) == Count(prev, x) {
      RemoveSubtreeCount(prev, dragId, x);
      FoundSubtreeIn(prev, dragId, x);
      InsertAfterCount(rest, hoverId, d, x);
    }
    InsertAfterFollows(rest, hoverId, d);
  }

  /**
   * With unique ids, a move onto the dragged node itself or onto a node
   * inside its subtree loses the whole dragged subtree: removal takes the
   * hovered node away too, so there is nothing to insert after.
   */
  lemma MoveIntoOwnSubtreeDropsIt(prev: seq<Component>, dragId: string, hoverId: string)
    requires UniqueIds(prev)
    requires Find(prev, dragId).Some?
    requires Count([Find(prev, dragId).value], hoverId) > 0
    ensures Move(prev, dragId, hoverId) == Remove(prev, dragId)
    ensures forall x :: Count(Move(prev, dragId, hoverId), x) == Count(prev, x) - Count([Find(prev, dragId).value], x)
  {
    var d := Find(prev, dragId).value;
    FoundSubtreeIn(prev, dragId, hoverId);
    FindNoneIff(prev, hoverId);
    RemoveSubtreeCount(prev, dragId, hoverId);
    InsertAfterAbsent(Remove(prev, dragId), hoverId, d);
    forall x ensures Count(Move(prev, dragId, hoverId), x) == Count(prev, x) - Count([d], x) {
      RemoveSubtreeCount(prev, dragId, x);
    }
  }

  /**
   * Outside the dragged subtree a move changes nothing: the subtree is put
   * after the hover node or, when the hover node lies inside it, lost.
   */
  lemma MoveOnlyRelocatesDragged(prev: seq<Component>, dragId: string, hoverId: string)
    ensures Remove(Move(prev, dragId, hoverId), dragId) == Remove(prev, dragId)
  {
    var drag := Find(prev, dragId);
    if drag.Some? && Find(prev, hoverId).Some? {
      FoundSubtreeIn(prev, dragId, dragId);
      var rest := Remove(prev, dragId);
      RemoveComplete(prev, dragId);
      RemoveAbsent(rest, dragId);
      if dragId == hoverId {
        InsertAfterAbsent(rest, hoverId, drag.value);
      } else {
        RemoveUndoesInsertAfter(rest, hoverId, drag.value);
      }
    }
  }

  /** Three top-level leaves: dragging the first onto the last puts it after the last. */
  lemma MoveFirstOntoLast(a: Component, b: Component, c: Component)
    requires a.children == Absent && b.children == Absent && c.children == Absent
    requires a.id != b.id && b.id != c.id && a.id != c.id
    ensures Move([a, b, c], a.id, c.id) == [b, c, a]
  {
    var f := [a, b, c];
    assert f[1..] == [b, c] && [b, c][1..] == [c] && [c][1..] == [];
    assert Find(f, a.id) == Some(a);
    assert Find([c], c.id) == Some(c);
    assert Find(f, c.id) == Some(c);
    assert Remove([c], a.id) == [c] by {
      assert Remove([c], a.id) == [c.(children := Absent)] + Remove([], a.id);
    }
    assert Remove([b, c], a.id) == [b, c] by {
      assert Remove([b, c], a.id) == [b.(children := Absent)] + Remove([c], a.id);
    }
    assert Remove(f, a.id) == [b, c];
    assert InsertAfter([c], c.id, a) == [c, a] by {
      assert InsertAfter([c], c.id, a) == [c, a] + InsertAfter([], c.id, a);
    }
    assert InsertAfter([b, c], c.id, a) == [b, c, a] by {
      assert InsertAfter([b, c], c.id, a) == [b.(children := Absent)] + InsertAfter([c], c.id, a);
    }
  }

  /** Three top-level leaves: dragging the last onto the first puts it second, not first. */
  lemma MoveLastOntoFirst(a: Component, b: Component, c: Component)
    requires a.children == Absent && b.children == Absent && c.children == Absent
    requires a.id != b.id && b.id != c.id && a.id != c.id
    ensures Move([a, b, c], c.id, a.id) == [a, c, b]
  {
    var f := [a, b, c];
    assert f[1..] == [b, c] && [b, c][1..] == [c] && [c][1..] == [] && [a, b][1..] == [b];
    assert Find([c], c.id) == Some(c);
    assert Find([b, c], c.id) == Some(c);
    assert Find(f, c.id) == Some(c);
    assert Find(f, a.id) == Some(a);
    assert Remove([c], c.id) == [];
    assert Remove([b, c], c.id) == [b] by {
      assert Remove([b, c], c.id) == [b.(children := Absent)] + Remove([c], c.id);
    }
    assert Remove(f, c.id) == [a, b] by {
      assert Remove(f, c.id) == [a.(children := Absent)] + Remove([b, c], c.id);
    }
    assert InsertAfter([b], a.id, c) == [b] by {
      assert InsertAfter([b], a.id, c) == [b.(children := Absent)] + InsertAfter([], a.id, c);
    }
    assert InsertAfter([a, b], a.id, c) == [a, c, b] by {
      assert InsertAfter([a, b], a.id, c) == [a, c] + InsertAfter([b], a.id, c);
    }
  }

  /** The call `onMove(item.id, hoverId)` a hover makes; a sidebar item has no id. */
  datatype MoveCall = MoveCall(dragId: Option<string>, hoverId: string)

  /**
   * `handleMove(item.id, hoverId)` for a drag item that may carry no id: an
   * undefined id matches no node, so the search fails and the state is kept.
   */
  function MoveItem(prev: seq<Component>, dragId: Option<string>, hoverId: string): (r: seq<Component>)
    ensures dragId.None? ==> r == prev
    ensures dragId.Some? ==> r == Move(prev, dragId.value, hoverId)
  {
    match dragId
    case None => prev
    case Some(d) => Move(prev, d, hoverId)
  }

  /** A move asked for with a drag item changes nothing outside the dragged subtree. */
  lemma MoveItemOnlyRelocatesDragged(prev: seq<Component>, dragId: Option<string>, hoverId: string)
    ensures dragId.None? ==> MoveItem(prev, dragId, hoverId) == prev
    ensures dragId.Some? ==> Remove(MoveItem(prev, dragId, hoverId), dragId.value) == Remove(prev, dragId.value)
  {
    if dragId.Some? {
      MoveOnlyRelocatesDragged(prev, dragId.value, hoverId);
    }
  }

  /** A move guarded against dropping a node onto itself or into its own subtree. */
  function MoveChecked(prev: seq<Component>, dragId: string, hoverId: string): seq<Component>
  {
    match Find(prev, dragId)
    case None => prev
    case Some(d) => if Count([d], hoverId) > 0 then prev else Move(prev, dragId, hoverId)
  }

  /** With unique ids, the guarded move never adds or loses a node, whatever the two ids. */
  lemma MoveCheckedKeepsNodes(prev: seq<Component>, dragId: string, hoverId: string)
    requires UniqueIds(prev)
    ensures forall x :: Count(MoveChecked(prev, dragId, hoverId), x) == Count(prev, x)
    ensures UniqueIds(MoveChecked(prev, dragId, hoverId))
  {
    match Find(prev, dragId)
    case None =>
    case Some(d) =>
      if Count([d], hoverId) == 0 {
        if Find(prev, hoverId).Some? {
          MoveRelocates(prev, dragId, hoverId);
        }
      }
  }

  /** The `ContentPreview` component's state: the top-level component list. */
  class Editor {
    var components: seq<Component>

    constructor ()
      ensures components == []
    {
      components := [];
    }

    method HandleDrop(parentId: Option<string>, itemType: string, freshId: string)
      modifies this
      ensures components == Drop(old(components), parentId, itemType, freshId)
    {
      components := Drop(components, parentId, itemType, freshId);
    }

    method HandleUpdate(id: string, content: string)
      modifies this
      ensures components == Update(old(components), id, content)
    {
      components := Update(components, id, content);
    }

    method HandleStyleChange(id: string, styles: Styles)
      modifies this
      ensures components == SetStyles(old(components), id, styles)
    {
      components := SetStyles(components, id, styles);
    }

    method HandleMove(dragId: string, hoverId: string)
      modifies this
      ensures components == Move(old(components), dragId, hoverId)
    {
      components := ComputeMove(components, dragId, hoverId);
    }
  }
}

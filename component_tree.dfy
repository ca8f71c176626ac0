/**
 * The editor's document: an ordered forest of component nodes (the `Component`
 * record of src/components/ContentPreview.tsx) together with the search,
 * delete and insert-after traversals that the move handler is built from.
 * The traversals are given here as recursive specification functions; the
 * loop-based procedures of the editor are proved equal to them in
 * module ContentPreview.
 */
module ComponentTree {
  import opened Wrappers

  /** A style record: CSS property name to value. */
  type Styles = map<string, string>

  /** The optional `children` array of a node: absent (undefined) or present, possibly empty. */
  datatype Children = Absent | Present(nodes: seq<Component>)

  /** One node of the document; `kind` is the `type` tag. */
  datatype Component = Component(
    id: string,
    kind: string,
    content: Option<string>,
    styles: Option<Styles>,
    children: Children)

  /** The item carried by a drag: sidebar items carry only a type, canvas items also their id. */
  datatype DragItem = DragItem(id: Option<string>, kind: string)

  /** The item a node on the canvas hands to a drag: its id and its type. */
  function DragItemOf(c: Component): (item: DragItem)
    ensures item.id == Some(c.id) && item.kind == c.kind
  {
    DragItem(Some(c.id), c.kind)
  }

  const HEADLINE: string := "HEADLINE"
  const SUBHEADER: string := "SUBHEADER"
  const BODY: string := "BODY"
  const PARAGRAPH: string := "PARAGRAPH"
  const QUOTE: string := "QUOTE"
  const ONE_COLUMN: string := "1COLUMN"
  const TWO_COLUMN: string := "2COLUMN"
  const CONTAINER: string := "CONTAINER"
  const DIVIDER: string := "DIVIDER"

  /** The layout types that hold children: `['1COLUMN', '2COLUMN', 'CONTAINER'].includes(t)`. */
  predicate IsContainerType(t: string) {
    t == ONE_COLUMN || t == TWO_COLUMN || t == CONTAINER
  }

  /** `comp.children || []` */
  function Kids(c: Component): seq<Component> {
    match c.children
    case Absent => []
    case Present(k) => k
  }

  /** How many nodes of the forest, at any depth, carry id `x`. */
  function Count(f: seq<Component>, x: string): nat
  {
    if f == [] then 0
    else
      (if f[0].id == x then 1 else 0)
      + (match f[0].children case Absent => 0 case Present(k) => Count(k, x))
      + Count(f[1..], x)
  }

  /** Every node of the forest, in depth-first pre-order. */
  function Nodes(f: seq<Component>): seq<Component>
  {
    if f == [] then []
    else
      [f[0]]
      + (match f[0].children case Absent => [] case Present(k) => Nodes(k))
      + Nodes(f[1..])
  }

  /** The ids of the top-level nodes only, in order. */
  function TopIds(f: seq<Component>): (r: seq<string>)
    ensures |r| == |f|
    ensures forall i :: 0 <= i < |f| ==> r[i] == f[i].id
  {
    if f == [] then [] else [f[0].id] + TopIds(f[1..])
  }

  /** How many top-level nodes carry id `p`. */
  function TopMatches(f: seq<Component>, p: string): (r: nat)
    ensures r <= Count(f, p)
  {
    if f == [] then 0
    else
      assert f == [f[0]] + f[1..];
      CountCons(f[0], f[1..], p);
      (if f[0].id == p then 1 else 0) + TopMatches(f[1..], p)
  }

  /** Every id occurs at most once in the whole forest. */
  ghost predicate UniqueIds(f: seq<Component>) {
    forall x :: Count(f, x) <= 1
  }

  /** `children` is present exactly on the container types, at every depth. */
  ghost predicate WellShaped(f: seq<Component>) {
    forall c :: c in Nodes(f) ==> (c.children.Present? <==> IsContainerType(c.kind))
  }

  /** Reference definition of "the first node with this id" in a flat sequence. */
  function FirstWithId(s: seq<Component>, id: string): Option<Component>
  {
    if s == [] then None
    else if s[0].id == id then Some(s[0])
    else FirstWithId(s[1..], id)
  }

  /** FirstWithId picks an element with the id, and no earlier element has it. */
  lemma {:induction false} FirstWithIdIsFirst(s: seq<Component>, id: string)
    ensures FirstWithId(s, id).None? <==> forall c :: c in s ==> c.id != id
    ensures FirstWithId(s, id).Some? ==>
      exists i :: 0 <= i < |s| && s[i] == FirstWithId(s, id).value && s[i].id == id
        && forall j :: 0 <= j < i ==> s[j].id != id
  {
    if s != [] && s[0].id != id {
      FirstWithIdIsFirst(s[1..], id);
      assert s == [s[0]] + s[1..];
      var r := FirstWithId(s[1..], id);
      if r.Some? {
        var i :| 0 <= i < |s[1..]| && s[1..][i] == r.value && s[1..][i].id == id
          && forall j :: 0 <= j < i ==> s[1..][j].id != id;
        assert s[i + 1] == r.value;
        forall j | 0 <= j < i + 1 ensures s[j].id != id {
          if j > 0 { assert s[j] == s[1..][j - 1]; }
        }
      }
    }
  }

  /** `findComponent`: depth-first search, a node before its children, children before later siblings. */
  function Find(f: seq<Component>, id: string): (r: Option<Component>)
    ensures r.Some? ==> r.value.id == id
  {
    if f == [] then None
    else if f[0].id == id then Some(f[0])
    else
      var inner := match f[0].children case Absent => None case Present(k) => Find(k, id);
      if inner.Some? then inner else Find(f[1..], id)
  }

  /** `removeComponent`: drop every node with the id (and its subtree), recursing into the survivors. */
  function Remove(f: seq<Component>, id: string): (r: seq<Component>)
    ensures |r| <= |f|
    ensures forall i :: 0 <= i < |r| ==> r[i].id != id
    ensures |r| == |f| - TopMatches(f, id)
  {
    if f == [] then []
    else if f[0].id == id then Remove(f[1..], id)
    else
      [f[0].(children := match f[0].children case Absent => Absent case Present(k) => Present(Remove(k, id)))]
      + Remove(f[1..], id)
  }

  /**
   * `insertAfter`: place `n` directly after every node with id `afterId`; a
   * matching node's own children are not searched.
   */
  function InsertAfter(f: seq<Component>, afterId: string, n: Component): (r: seq<Component>)
    ensures |r| == |f| + TopMatches(f, afterId)
  {
    if f == [] then []
    else if f[0].id == afterId then [f[0], n] + InsertAfter(f[1..], afterId, n)
    else
      [f[0].(children := match f[0].children case Absent => Absent case Present(k) => Present(InsertAfter(k, afterId, n)))]
      + InsertAfter(f[1..], afterId, n)
  }

  /** Some sibling list of the forest holds a node with id `a` immediately followed by `n`. */
  predicate FollowsIn(f: seq<Component>, a: string, n: Component)
  {
    if f == [] then false
    else
      (|f| >= 2 && f[0].id == a && f[1] == n)
      || (match f[0].children case Absent => false case Present(k) => FollowsIn(k, a, n))
      || FollowsIn(f[1..], a, n)
  }


  // ---------------------------------------------------------------------------
  // Basic facts about the traversals

  lemma CountCons(c: Component, rest: seq<Component>, x: string)
    ensures Count([c] + rest, x) == (if c.id == x then 1 else 0) + Count(Kids(c), x) + Count(rest, x)
  {
    var f := [c] + rest;
    assert f[0] == c;
    assert f[1..] == rest;
  }

  lemma NodesCons(c: Component, rest: seq<Component>)
    ensures Nodes([c] + rest) == [c] + Nodes(Kids(c)) + Nodes(rest)
  {
    var f := [c] + rest;
    assert f[0] == c;
    assert f[1..] == rest;
  }

  lemma {:induction false} CountAppend(a: seq<Component>, b: seq<Component>, x: string)
    ensures Count(a + b, x) == Count(a, x) + Count(b, x)
  {
    if a == [] {
      assert a + b == b;
    } else {
      var c := a[0];
      assert a + b == [c] + (a[1..] + b);
      assert a == [c] + a[1..];
      CountCons(c, a[1..] + b, x);
      CountCons(c, a[1..], x);
      CountAppend(a[1..], b, x);
    }
  }

  lemma {:induction false} NodesAppend(a: seq<Component>, b: seq<Component>)
    ensures Nodes(a + b) == Nodes(a) + Nodes(b)
  {
    if a == [] {
      assert a + b == b;
    } else {
      var c, tail := a[0], a[1..];
      assert a + b == [c] + (tail + b);
      assert a == [c] + tail;
      NodesCons(c, tail + b);
      NodesCons(c, tail);
      NodesAppend(tail, b);
      ConcatAssoc([c] + Nodes(Kids(c)), Nodes(tail), Nodes(b));
    }
  }

  /**
   * Regrouping a concatenation, as a lemma so that each use is one cheap step
   * for the solver rather than an argument by sequence extensionality.
   */
  lemma ConcatAssoc<T>(a: seq<T>, b: seq<T>, c: seq<T>)
    ensures (a + b) + c == a + (b + c)
  {
  }

  /** `findComponent` returns null iff no node at any depth has the id. */
  lemma {:induction false} FindNoneIff(f: seq<Component>, id: string)
    ensures Find(f, id).None? <==> Count(f, id) == 0
  {
    if f != [] {
      match f[0].children {
        case Absent =>
        case Present(k) => FindNoneIff(k, id);
      }
      FindNoneIff(f[1..], id);
    }
  }

  /** `findComponent` returns the first node with the id in depth-first pre-order. */
  lemma {:induction false} FindIsFirstInPreorder(f: seq<Component>, id: string)
    ensures Find(f, id) == FirstWithId(Nodes(f), id)
  {
    if f != [] {
      var c, rest := f[0], f[1..];
      var k := Kids(c);
      var below := Nodes(k) + Nodes(rest);
      assert f == [c] + rest;
      NodesCons(c, rest);
      ConcatAssoc([c], Nodes(k), Nodes(rest));
      FirstWithIdAppend([c], below, id);
      assert [c][1..] == [];
      if c.id != id {
        assert FirstWithId([c], id).None?;
        FirstWithIdAppend(Nodes(k), Nodes(rest), id);
        FindIsFirstInPreorder(rest, id);
        match c.children {
          case Absent =>
            assert Nodes(k) == [];
          case Present(kids) =>
            FindIsFirstInPreorder(kids, id);
        }
      }
    }
  }

  /** The node the search returns is a node of the forest. */
  lemma FindInNodes(f: seq<Component>, id: string)
    requires Find(f, id).Some?
    ensures Find(f, id).value in Nodes(f)
  {
    FindIsFirstInPreorder(f, id);
    FirstWithIdIsFirst(Nodes(f), id);
  }

  lemma {:induction false} FirstWithIdAppend(a: seq<Component>, b: seq<Component>, id: string)
    ensures FirstWithId(a + b, id) == if FirstWithId(a, id).Some? then FirstWithId(a, id) else FirstWithId(b, id)
  {
    if a == [] {
      assert a + b == b;
    } else {
      assert (a + b)[0] == a[0];
      assert (a + b)[1..] == a[1..] + b;
      FirstWithIdAppend(a[1..], b, id);
    }
  }

  /** A found node lies in the forest, so its subtree is counted in the forest's. */
  lemma {:induction false} FoundSubtreeIn(f: seq<Component>, id: string, x: string)
    requires Find(f, id).Some?
    ensures Find(f, id).value.id == id
    ensures Count([Find(f, id).value], x) <= Count(f, x)
  {
    var c, rest := f[0], f[1..];
    assert f == [c] + rest;
    CountCons(c, rest, x);
    CountCons(c, [], x);
    assert [c] + [] == [c];
    if c.id != id {
      match c.children {
        case Absent =>
          FoundSubtreeIn(rest, id, x);
        case Present(k) =>
          if Find(k, id).Some? {
            FoundSubtreeIn(k, id, x);
          } else {
            FoundSubtreeIn(rest, id, x);
          }
      }
    }
  }

  lemma {:induction false} TopIdCounted(f: seq<Component>, i: nat)
    requires i < |f|
    ensures Count(f, f[i].id) > 0
  {
    if i > 0 {
      TopIdCounted(f[1..], i - 1);
    }
  }

  // ---------------------------------------------------------------------------
  // Remove

  /** Removing an id that is absent changes nothing. */
  lemma {:induction false} RemoveAbsent(f: seq<Component>, id: string)
    requires Count(f, id) == 0
    ensures Remove(f, id) == f
  {
    if f != [] {
      match f[0].children {
        case Absent =>
        case Present(k) => RemoveAbsent(k, id);
      }
      RemoveAbsent(f[1..], id);
      assert f == [f[0]] + f[1..];
    }
  }

  /** After removal no node at any depth carries the id. */
  lemma {:induction false} RemoveComplete(f: seq<Component>, id: string)
    ensures Count(Remove(f, id), id) == 0
  {
    if f != [] {
      RemoveComplete(f[1..], id);
      if f[0].id != id {
        var c := f[0].(children := match f[0].children case Absent => Absent case Present(k) => Present(Remove(k, id)));
        match f[0].children {
          case Absent =>
          case Present(k) => RemoveComplete(k, id);
        }
        CountCons(c, Remove(f[1..], id), id);
      }
    }
  }

  /** `s` with every occurrence of `x` filtered out. */
  function Without(s: seq<string>, x: string): (r: seq<string>)
    ensures x !in r
    ensures forall y :: y in r <==> y in s && y != x
  {
    if s == [] then []
    else if s[0] == x then Without(s[1..], x)
    else [s[0]] + Without(s[1..], x)
  }

  /** The survivors of a top-level sibling list keep their relative order. */
  lemma {:induction false} RemoveKeepsSiblingOrder(f: seq<Component>, id: string)
    ensures TopIds(Remove(f, id)) == Without(TopIds(f), id)
  {
    if f != [] {
      RemoveKeepsSiblingOrder(f[1..], id);
      assert TopIds(f)[0] == f[0].id;
      assert TopIds(f)[1..] == TopIds(f[1..]);
      if f[0].id != id {
        var r := Remove(f, id);
        assert r[1..] == Remove(f[1..], id);
      }
    }
  }

  /**
   * With the id occurring at most once, removal deletes exactly the subtree
   * that `findComponent` locates: every id loses as many nodes as it has in
   * that subtree.
   */
  lemma {:induction false} RemoveSubtreeCount(f: seq<Component>, id: string, x: string)
    requires Count(f, id) <= 1
    requires Find(f, id).Some?
    ensures Count(Remove(f, id), x) == Count(f, x) - Count([Find(f, id).value], x)
    decreases f, 1
  {
    var c, rest := f[0], f[1..];
    assert f == [c] + rest;
    CountCons(c, rest, id);
    CountCons(c, rest, x);
    if c.id == id {
      CountCons(c, [], x);
      assert [c] + [] == [c];
      RemoveAbsent(rest, id);
    } else {
      match c.children {
        case Absent =>
          RemoveSubtreeCountInRest(f, id, x);
        case Present(k) =>
          if Find(k, id).Some? {
            RemoveSubtreeCountInKids(f, k, id, x);
          } else {
            RemoveSubtreeCountInRest(f, id, x);
          }
      }
    }
  }

  lemma {:induction false} RemoveSubtreeCountInKids(f: seq<Component>, k: seq<Component>, id: string, x: string)
    requires f != [] && f[0].id != id && f[0].children == Present(k)
    requires Count(f, id) <= 1
    requires Find(k, id).Some?
    ensures Count(Remove(f, id), x) == Count(f, x) - Count([Find(f, id).value], x)
    decreases f, 0
  {
    var c, rest := f[0], f[1..];
    assert f == [c] + rest;
    CountCons(c, rest, id);
    CountCons(c, rest, x);
    var d := Find(k, id).value;
    assert Find(f, id) == Some(d);
    var c' := c.(children := Present(Remove(k, id)));
    assert Remove(f, id) == [c'] + Remove(rest, id);
    CountCons(c', Remove(rest, id), x);
    FindNoneIff(k, id);
    RemoveAbsent(rest, id);
    RemoveSubtreeCount(k, id, x);
    FoundSubtreeIn(k, id, x);
  }

  lemma {:induction false} RemoveSubtreeCountInRest(f: seq<Component>, id: string, x: string)
    requires f != [] && f[0].id != id
    requires Find(Kids(f[0]), id).None?
    requires Count(f, id) <= 1
    requires Find(f, id).Some?
    ensures Count(Remove(f, id), x) == Count(f, x) - Count([Find(f, id).value], x)
    decreases f, 0
  {
    var c, rest := f[0], f[1..];
    assert f == [c] + rest;
    CountCons(c, rest, id);
    CountCons(c, rest, x);
    FindNoneIff(Kids(c), id);
    RemoveAbsent(Kids(c), id);
    assert Find(f, id) == Find(rest, id);
    assert Remove(f, id) == [c] + Remove(rest, id);
    CountCons(c, Remove(rest, id), x);
    RemoveSubtreeCount(rest, id, x);
    FoundSubtreeIn(rest, id, x);
  }

  /** A node as `removeComponent` keeps it: every field as it was, its children filtered in turn. */
  function Pruned(c: Component, id: string): (r: Component)
    ensures r.id == c.id && r.kind == c.kind && r.content == c.content && r.styles == c.styles
    ensures r.children.Present? <==> c.children.Present?
    ensures Kids(r) == Remove(Kids(c), id)
  {
    c.(children := match c.children case Absent => Absent case Present(k) => Present(Remove(k, id)))
  }

  /**
   * The nodes of the forest, in pre-order, that have no node with the id on
   * the path from the top down to them, themselves included.
   */
  function Survivors(f: seq<Component>, id: string): seq<Component>
  {
    if f == [] then []
    else if f[0].id == id then Survivors(f[1..], id)
    else
      [f[0]]
      + (match f[0].children case Absent => [] case Present(k) => Survivors(k, id))
      + Survivors(f[1..], id)
  }

  function PrunedAll(s: seq<Component>, id: string): (r: seq<Component>)
    ensures |r| == |s|
    ensures forall i :: 0 <= i < |s| ==> r[i] == Pruned(s[i], id)
  {
    seq(|s|, i requires 0 <= i < |s| => Pruned(s[i], id))
  }

  lemma PrunedAllAppend(a: seq<Component>, b: seq<Component>, id: string)
    ensures PrunedAll(a + b, id) == PrunedAll(a, id) + PrunedAll(b, id)
  {
    var l, r := PrunedAll(a + b, id), PrunedAll(a, id) + PrunedAll(b, id);
    forall i | 0 <= i < |l| ensures l[i] == r[i] {
      if i < |a| {
        assert (a + b)[i] == a[i];
      } else {
        assert (a + b)[i] == b[i - |a|];
      }
    }
  }

  /** A surviving node is a node of the forest and does not carry the id. */
  lemma {:induction false} SurvivorsIn(f: seq<Component>, id: string, c: Component)
    requires c in Survivors(f, id)
    ensures c in Nodes(f) && c.id != id
  {
    var head, rest := f[0], f[1..];
    assert f == [head] + rest;
    NodesCons(head, rest);
    if head.id == id {
      SurvivorsIn(rest, id, c);
    } else {
      var below := match head.children case Absent => [] case Present(k) => Survivors(k, id);
      assert Survivors(f, id) == [head] + below + Survivors(rest, id);
      if c in below {
        match head.children {
          case Absent =>
          case Present(k) => SurvivorsIn(k, id, c);
        }
      } else if c in Survivors(rest, id) {
        SurvivorsIn(rest, id, c);
      }
    }
  }

  /**
   * `removeComponent` at every depth: the pre-order node list of the result
   * is the list of surviving nodes, in their old order, each with its own
   * children filtered the same way and every other field unchanged.
   */
  lemma {:induction false} RemoveNodes(f: seq<Component>, id: string)
    ensures Nodes(Remove(f, id)) == PrunedAll(Survivors(f, id), id)
  {
    if f != [] {
      var c, rest := f[0], f[1..];
      RemoveNodes(rest, id);
      if c.id != id {
        var c' := Pruned(c, id);
        var below := match c.children case Absent => [] case Present(k) => Survivors(k, id);
        match c.children {
          case Absent =>
          case Present(k) => RemoveNodes(k, id);
        }
        var after := Survivors(rest, id);
        assert Nodes(Kids(c')) == PrunedAll(below, id);
        assert Remove(f, id) == [c'] + Remove(rest, id);
        assert Survivors(f, id) == [c] + below + after;
        assert PrunedAll([c], id) == [c'];
        NodesCons(c', Remove(rest, id));
        PrunedAllAppend([c] + below, after, id);
        PrunedAllAppend([c], below, id);
        calc {
          Nodes(Remove(f, id));
          [c'] + Nodes(Kids(c')) + Nodes(Remove(rest, id));
          [c'] + PrunedAll(below, id) + PrunedAll(after, id);
          PrunedAll([c] + below, id) + PrunedAll(after, id);
          PrunedAll(Survivors(f, id), id);
        }
      }
    }
  }

  /**
   * Every surviving node is still in the tree after removal with its id,
   * type, content and styles, and its children keep their relative order
   * with the removed id filtered out.
   */
  lemma RemoveKeepsSurvivors(f: seq<Component>, id: string, c: Component)
    requires c in Survivors(f, id)
    ensures c in Nodes(f) && c.id != id
    ensures exists c' :: (c' in Nodes(Remove(f, id))
      && c'.id == c.id && c'.kind == c.kind && c'.content == c.content && c'.styles == c.styles
      && TopIds(Kids(c')) == Without(TopIds(Kids(c)), id))
  {
    SurvivorsIn(f, id, c);
    RemoveNodes(f, id);
    var s := Survivors(f, id);
    var i :| 0 <= i < |s| && s[i] == c;
    var c' := Pruned(c, id);
    assert PrunedAll(s, id)[i] == c';
    RemoveKeepsSiblingOrder(Kids(c), id);
  }

  /** Every node after removal is a surviving node with its children filtered: nothing else appears. */
  lemma RemoveKeepsOnlySurvivors(f: seq<Component>, id: string, c': Component)
    requires c' in Nodes(Remove(f, id))
    ensures exists c :: c in Survivors(f, id) && c' == Pruned(c, id)
  {
    RemoveNodes(f, id);
    var s := Survivors(f, id);
    var i :| 0 <= i < |s| && PrunedAll(s, id)[i] == c';
    assert s[i] in s;
  }

  // ---------------------------------------------------------------------------
  // The container invariant under the traversals

  /** The container invariant of a forest splits into its first node, that node's children and the rest. */
  lemma WellShapedCons(c: Component, rest: seq<Component>)
    ensures WellShaped([c] + rest) <==>
      (c.children.Present? <==> IsContainerType(c.kind)) && WellShaped(Kids(c)) && WellShaped(rest)
  {
    NodesCons(c, rest);
    assert c in Nodes([c] + rest);
  }

  lemma WellShapedAppend(a: seq<Component>, b: seq<Component>)
    ensures WellShaped(a + b) <==> WellShaped(a) && WellShaped(b)
  {
    NodesAppend(a, b);
  }

  /** The subtree the search finds satisfies the container invariant when the forest does. */
  lemma {:induction false} FoundKeepsShape(f: seq<Component>, id: string)
    requires WellShaped(f)
    requires Find(f, id).Some?
    ensures WellShaped([Find(f, id).value])
  {
    var c, rest := f[0], f[1..];
    assert f == [c] + rest;
    WellShapedCons(c, rest);
    if c.id == id {
      WellShapedCons(c, []);
      assert [c] + [] == [c];
    } else {
      match c.children {
        case Absent =>
          FoundKeepsShape(rest, id);
        case Present(k) =>
          if Find(k, id).Some? {
            FoundKeepsShape(k, id);
          } else {
            FoundKeepsShape(rest, id);
          }
      }
    }
  }

  /** Removal keeps children present exactly on the container types. */
  lemma {:induction false} RemoveKeepsShape(f: seq<Component>, id: string)
    requires WellShaped(f)
    ensures WellShaped(Remove(f, id))
  {
    if f != [] {
      var c, rest := f[0], f[1..];
      assert f == [c] + rest;
      WellShapedCons(c, rest);
      RemoveKeepsShape(rest, id);
      if c.id != id {
        match c.children {
          case Absent =>
          case Present(k) => RemoveKeepsShape(k, id);
        }
        var c' := Pruned(c, id);
        assert Remove(f, id) == [c'] + Remove(rest, id);
        WellShapedCons(c', Remove(rest, id));
      }
    }
  }

  // ---------------------------------------------------------------------------
  // InsertAfter

  /** Inserting after an id that is absent changes nothing. */
  lemma {:induction false} InsertAfterAbsent(f: seq<Component>, a: string, n: Component)
    requires Count(f, a) == 0
    ensures InsertAfter(f, a, n) == f
  {
    if f != [] {
      match f[0].children {
        case Absent =>
        case Present(k) => InsertAfterAbsent(k, a, n);
      }
      InsertAfterAbsent(f[1..], a, n);
      assert f == [f[0]] + f[1..];
    }
  }

  /** When the anchor id occurs, the inserted node ends up directly after it in its sibling list. */
  lemma {:induction false} InsertAfterFollows(f: seq<Component>, a: string, n: Component)
    requires Count(f, a) > 0
    ensures FollowsIn(InsertAfter(f, a, n), a, n)
  {
    var r := InsertAfter(f, a, n);
    if f[0].id == a {
      assert r[0] == f[0] && r[1] == n;
    } else {
      match f[0].children {
        case Absent =>
          assert r[1..] == InsertAfter(f[1..], a, n);
          InsertAfterFollows(f[1..], a, n);
        case Present(k) =>
          if Count(k, a) > 0 {
            InsertAfterFollows(k, a, n);
            assert r[0].children == Present(InsertAfter(k, a, n));
          } else {
            assert r[1..] == InsertAfter(f[1..], a, n);
            InsertAfterFollows(f[1..], a, n);
          }
      }
    }
  }

  /** With the anchor id occurring at most once, exactly one copy of the subtree is added. */
  lemma {:induction false} InsertAfterCount(f: seq<Component>, a: string, n: Component, x: string)
    requires Count(f, a) <= 1
    ensures Count(InsertAfter(f, a, n), x) == Count(f, x) + if Count(f, a) == 1 then Count([n], x) else 0
    decreases f, 1
  {
    if f != [] {
      var c, rest := f[0], f[1..];
      assert f == [c] + rest;
      CountCons(c, rest, a);
      CountCons(c, rest, x);
      if c.id == a {
        InsertAfterCountAtAnchor(f, a, n, x);
      } else {
        match c.children {
          case Absent =>
            InsertAfterCount(rest, a, n, x);
            assert InsertAfter(f, a, n) == [c] + InsertAfter(rest, a, n);
            CountCons(c, InsertAfter(rest, a, n), x);
          case Present(k) =>
            InsertAfterCountInKids(f, k, a, n, x);
        }
      }
    }
  }

  lemma InsertAfterCountAtAnchor(f: seq<Component>, a: string, n: Component, x: string)
    requires f != [] && f[0].id == a
    requires Count(f, a) <= 1
    ensures Count(InsertAfter(f, a, n), x) == Count(f, x) + Count([n], x)
  {
    var c, rest := f[0], f[1..];
    assert f == [c] + rest;
    CountCons(c, rest, a);
    CountCons(c, rest, x);
    InsertAfterAbsent(rest, a, n);
    assert InsertAfter(f, a, n) == [c] + ([n] + rest);
    CountCons(c, [n] + rest, x);
    CountAppend([n], rest, x);
  }

  lemma {:induction false} InsertAfterCountInKids(f: seq<Component>, k: seq<Component>, a: string, n: Component, x: string)
    requires f != [] && f[0].id != a && f[0].children == Present(k)
    requires Count(f, a) <= 1
    ensures Count(InsertAfter(f, a, n), x) == Count(f, x) + if Count(f, a) == 1 then Count([n], x) else 0
    decreases f, 0
  {
    var c, rest := f[0], f[1..];
    assert f == [c] + rest;
    CountCons(c, rest, a);
    CountCons(c, rest, x);
    var c' := c.(children := Present(InsertAfter(k, a, n)));
    var tail := InsertAfter(rest, a, n);
    assert InsertAfter(f, a, n) == [c'] + tail;
    CountCons(c', tail, x);
    InsertAfterCount(k, a, n, x);
    InsertAfterCount(rest, a, n, x);
  }


  /** Inserting a subtree that satisfies the container invariant keeps it. */
  lemma {:induction false} InsertAfterKeepsShape(f: seq<Component>, a: string, n: Component)
    requires WellShaped(f) && WellShaped([n])
    ensures WellShaped(InsertAfter(f, a, n))
  {
    if f != [] {
      var c, rest := f[0], f[1..];
      assert f == [c] + rest;
      WellShapedCons(c, rest);
      InsertAfterKeepsShape(rest, a, n);
      var tail := InsertAfter(rest, a, n);
      if c.id == a {
        assert InsertAfter(f, a, n) == [c] + ([n] + tail);
        WellShapedAppend([n], tail);
        WellShapedCons(c, [n] + tail);
      } else {
        match c.children {
          case Absent =>
          case Present(k) => InsertAfterKeepsShape(k, a, n);
        }
        var c' := c.(children := match c.children case Absent => Absent case Present(k) => Present(InsertAfter(k, a, n)));
        assert InsertAfter(f, a, n) == [c'] + tail;
        WellShapedCons(c', tail);
      }
    }
  }

  /** Removing the inserted node's id undoes the insertion. */
  lemma {:induction false} RemoveUndoesInsertAfter(f: seq<Component>, a: string, n: Component)
    requires n.id != a
    ensures Remove(InsertAfter(f, a, n), n.id) == Remove(f, n.id)
  {
    if f != [] {
      var c := f[0];
      var rest := f[1..];
      RemoveUndoesInsertAfter(rest, a, n);
      match c.children {
        case Absent =>
        case Present(k) => RemoveUndoesInsertAfter(k, a, n);
      }
      var ia := InsertAfter(f, a, n);
      if c.id == a {
        assert ia[0] == c && ia[1..] == [n] + InsertAfter(rest, a, n);
        assert ([n] + InsertAfter(rest, a, n))[1..] == InsertAfter(rest, a, n);
      } else {
        assert ia[1..] == InsertAfter(rest, a, n);
      }
    }
  }
}

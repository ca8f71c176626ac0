/**
 * The text block of src/components/TextComponent.tsx: its local editing
 * state, the caret save/restore arithmetic over the element's text nodes,
 * the merge of a settings change into the style record, the type tables,
 * and the commits it makes into the editor.
 */
module TextComponent {
  import opened Wrappers
  import opened ComponentTree
  import opened ContentPreview

  // ---------------------------------------------------------------------------
  // Caret save and restore

  /** `lastSelection`: character offsets from the start of the element's text. */
  datatype Saved = Saved(start: nat, end: nat)

  /**
   * What `saveSelection` reads from the browser's first range: the length of
   * the text before the range and the length of the selected text.
   */
  datatype RangeLengths = RangeLengths(before: nat, selected: nat)

  /** The range `restoreSelection` applies: text-node indices and offsets within them. */
  datatype Caret = Caret(startNode: nat, startOffset: int, endNode: nat, endOffset: int)

  /**
   * `saveSelection`: with no selection, no range or no element (`None`) the
   * saved offsets stay as they were; otherwise they are replaced.
   */
  function SaveOffsets(last: Option<Saved>, observed: Option<RangeLengths>): (r: Option<Saved>)
    ensures observed.None? ==> r == last
    ensures observed.Some? ==> r.Some? && r.value.start == observed.value.before
    ensures observed.Some? ==> r.value.end - r.value.start == observed.value.selected
    ensures observed.Some? ==> r.value.end >= r.value.start
  {
    match observed
    case None => last
    case Some(o) => Some(Saved(o.before, o.before + o.selected))
  }

  /** The length of the first `k` text nodes together: `charCount` before node `k`. */
  function Sum(lens: seq<nat>, k: nat): nat
    requires k <= |lens|
  {
    if k == 0 then 0 else Sum(lens, k - 1) + lens[k - 1]
  }

  /** Where text node `j` ends, counted from the start of the element. */
  function End(lens: seq<nat>, j: nat): nat
    requires j < |lens|
  {
    Sum(lens, j + 1)
  }

  /**
   * Among the first `k` text nodes, the first whose end reaches offset `t`,
   * found as the loop finds it: node by node from the front.
   */
  function FirstReaching(lens: seq<nat>, k: nat, t: int): (r: Option<nat>)
    requires k <= |lens|
    ensures r.Some? ==> r.value < k
  {
    if k == 0 then None
    else
      match FirstReaching(lens, k - 1, t)
      case Some(j) => Some(j)
      case None => if Sum(lens, k) >= t then Some(k - 1) else None
  }

  lemma {:induction false} SumMonotone(lens: seq<nat>, j: nat, k: nat)
    requires j <= k <= |lens|
    ensures Sum(lens, j) <= Sum(lens, k)
    decreases k
  {
    if j < k {
      SumMonotone(lens, j, k - 1);
    }
  }

  /** The node found is the first whose end reaches `t`; none is found iff no node's end does. */
  lemma {:induction false} FirstReachingIsFirst(lens: seq<nat>, k: nat, t: int)
    requires k <= |lens|
    ensures FirstReaching(lens, k, t).None? <==> forall j :: 0 <= j < k ==> End(lens, j) < t
    ensures FirstReaching(lens, k, t).Some? ==>
      var m := FirstReaching(lens, k, t).value;
      && m < k
      && End(lens, m) >= t
      && forall j :: 0 <= j < m ==> End(lens, j) < t
  {
    if k > 0 {
      FirstReachingIsFirst(lens, k - 1, t);
      assert End(lens, k - 1) == Sum(lens, k);
    }
  }

  /** Among a non-empty run of nodes, none reaches `t` exactly when their text is shorter than `t`. */
  lemma FirstReachingNoneIff(lens: seq<nat>, k: nat, t: int)
    requires 0 < k <= |lens|
    ensures FirstReaching(lens, k, t).None? <==> Sum(lens, k) < t
  {
    FirstReachingIsFirst(lens, k, t);
    assert End(lens, k - 1) == Sum(lens, k);
    if Sum(lens, k) < t {
      forall j | 0 <= j < k ensures End(lens, j) < t {
        SumMonotone(lens, j + 1, k);
      }
    }
  }

  /** A node found among the first `k` nodes is still the one found among more. */
  lemma {:induction false} FirstReachingExtends(lens: seq<nat>, k: nat, m: nat, t: int)
    requires k <= m <= |lens|
    requires FirstReaching(lens, k, t).Some?
    ensures FirstReaching(lens, m, t) == FirstReaching(lens, k, t)
    decreases m
  {
    if k < m {
      FirstReachingExtends(lens, k, m - 1, t);
    }
  }

  /**
   * Reference definition of `restoreSelection`'s result: the end node is the
   * first to reach `end`, and the start node is the first to reach `start`
   * among the nodes up to the end node, where the loop stops.
   */
  function Restored(saved: Saved, lens: seq<nat>): (r: Option<Caret>)
    ensures r.Some? ==> r.value.startNode <= r.value.endNode < |lens|
    ensures r.Some? ==> saved.end <= Sum(lens, |lens|)
  {
    match FirstReaching(lens, |lens|, saved.end)
    case None => None
    case Some(e) =>
      FirstReachingIsFirst(lens, |lens|, saved.end);
      SumMonotone(lens, e + 1, |lens|);
      match FirstReaching(lens, e + 1, saved.start)
      case None => None
      case Some(s) => Some(Caret(s, saved.start - Sum(lens, s), e, saved.end - Sum(lens, e)))
  }

  /**
   * A restored caret lies inside the text: the start node comes no later
   * than the end node, each offset lies within its node, and the offsets
   * count back to the saved positions.
   */
  lemma RestoredInBounds(saved: Saved, lens: seq<nat>)
    requires Restored(saved, lens).Some?
    ensures var c := Restored(saved, lens).value;
      && c.startNode <= c.endNode < |lens|
      && 0 <= c.startOffset <= lens[c.startNode]
      && 0 <= c.endOffset <= lens[c.endNode]
      && Sum(lens, c.startNode) + c.startOffset == saved.start
      && Sum(lens, c.endNode) + c.endOffset == saved.end
  {
    var e := FirstReaching(lens, |lens|, saved.end).value;
    var s := FirstReaching(lens, e + 1, saved.start).value;
    FirstReachingIsFirst(lens, |lens|, saved.end);
    FirstReachingIsFirst(lens, e + 1, saved.start);
    assert End(lens, s) == Sum(lens, s) + lens[s];
    assert End(lens, e) == Sum(lens, e) + lens[e];
    if s > 0 {
      assert End(lens, s - 1) == Sum(lens, s);
    }
    if e > 0 {
      assert End(lens, e - 1) == Sum(lens, e);
    }
  }

  /**
   * For saved offsets with `start <= end` (all that saving produces), a
   * caret is applied exactly when there is text and `end` does not run past it.
   */
  lemma RestoreAppliedIff(saved: Saved, lens: seq<nat>)
    requires saved.start <= saved.end
    ensures Restored(saved, lens).Some? <==> lens != [] && saved.end <= Sum(lens, |lens|)
  {
    if lens != [] {
      FirstReachingNoneIff(lens, |lens|, saved.end);
      if saved.end <= Sum(lens, |lens|) {
        var e := FirstReaching(lens, |lens|, saved.end).value;
        FirstReachingIsFirst(lens, |lens|, saved.end);
        assert End(lens, e) == Sum(lens, e + 1);
        FirstReachingNoneIff(lens, e + 1, saved.start);
      }
    }
  }

  /** `restoreSelection`: the loop over text-node lengths with its early exit and `break`. */
  method RestoreSelection(last: Option<Saved>, element: Option<seq<nat>>) returns (r: Option<Caret>)
    ensures last.None? || element.None? ==> r.None?
    ensures last.Some? && element.Some? ==> r == Restored(last.value, element.value)
  {
    if last.None? || element.None? {
      return None;
    }
    var start, end := last.value.start, last.value.end;
    var lens := element.value;
    var charCount: nat := 0;
    var startNode: Option<nat> := None;
    var endNode: Option<nat> := None;
    var startOffset: int := 0;
    var endOffset: int := 0;
    var i := 0;
    while i < |lens|
      invariant 0 <= i <= |lens|
      invariant charCount == Sum(lens, i)
      invariant startNode == FirstReaching(lens, i, start)
      invariant startNode.Some? ==> startOffset == start - Sum(lens, startNode.value)
      invariant FirstReaching(lens, i, end).None?
      invariant endNode.None?
    {
      var length := lens[i];
      if startNode.None? && charCount + length >= start {
        startNode := Some(i);
        startOffset := start - charCount;
      }
      if endNode.None? && charCount + length >= end {
        endNode := Some(i);
        endOffset := end - charCount;
        FirstReachingExtends(lens, i + 1, |lens|, end);
        break;
      }
      charCount := charCount + length;
      i := i + 1;
    }
    if startNode.Some? && endNode.Some? {
      r := Some(Caret(startNode.value, startOffset, endNode.value, endOffset));
    } else {
      r := None;
    }
  }

  // ---------------------------------------------------------------------------
  // Settings and styles

  /** `TextSettings`; `kind` is the `type` field. */
  datatype TextSettings = TextSettings(
    kind: string,
    linkType: string,
    url: Option<string>,
    fontFamily: string,
    isBold: bool,
    isItalic: bool,
    isUnderlined: bool)

  /** `Partial<TextSettings>`: a field is `None` when the change does not mention it. */
  datatype SettingsPatch = SettingsPatch(
    kind: Option<string>,
    linkType: Option<string>,
    url: Option<string>,
    fontFamily: Option<string>,
    isBold: Option<bool>,
    isItalic: Option<bool>,
    isUnderlined: Option<bool>)

  /** The change `handleTypeChange` makes: only the type. */
  function TypeOnly(t: string): (p: SettingsPatch)
    ensures p.kind == Some(t)
    ensures p.linkType.None? && p.url.None? && p.fontFamily.None?
    ensures p.isBold.None? && p.isItalic.None? && p.isUnderlined.None?
  {
    SettingsPatch(Some(t), None, None, None, None, None, None)
  }

  function Pick<T>(patch: Option<T>, current: T): T {
    match patch
    case None => current
    case Some(v) => v
  }

  /** `{ ...prev, ...newSettings }` */
  function MergeSettings(prev: TextSettings, p: SettingsPatch): (r: TextSettings)
    ensures p.kind.Some? ==> r.kind == p.kind.value
    ensures p.kind.None? ==> r.kind == prev.kind
    ensures p.linkType.Some? ==> r.linkType == p.linkType.value
    ensures p.linkType.None? ==> r.linkType == prev.linkType
    ensures p.url.Some? ==> r.url == p.url
    ensures p.url.None? ==> r.url == prev.url
    ensures p.fontFamily.Some? ==> r.fontFamily == p.fontFamily.value
    ensures p.fontFamily.None? ==> r.fontFamily == prev.fontFamily
    ensures p.isBold.Some? ==> r.isBold == p.isBold.value
    ensures p.isBold.None? ==> r.isBold == prev.isBold
    ensures p.isItalic.Some? ==> r.isItalic == p.isItalic.value
    ensures p.isItalic.None? ==> r.isItalic == prev.isItalic
    ensures p.isUnderlined.Some? ==> r.isUnderlined == p.isUnderlined.value
    ensures p.isUnderlined.None? ==> r.isUnderlined == prev.isUnderlined
  {
    TextSettings(
      Pick(p.kind, prev.kind),
      Pick(p.linkType, prev.linkType),
      if p.url.Some? then p.url else prev.url,
      Pick(p.fontFamily, prev.fontFamily),
      Pick(p.isBold, prev.isBold),
      Pick(p.isItalic, prev.isItalic),
      Pick(p.isUnderlined, prev.isUnderlined))
  }

  /** Applying the same change twice is applying it once. */
  lemma MergeSettingsIdempotent(prev: TextSettings, p: SettingsPatch)
    ensures MergeSettings(MergeSettings(prev, p), p) == MergeSettings(prev, p)
  {
  }

  const FONT_FAMILY: string := "fontFamily"
  const FONT_WEIGHT: string := "fontWeight"
  const FONT_STYLE: string := "fontStyle"
  const TEXT_DECORATION: string := "textDecoration"

  /** The style keys a settings change recomputes. */
  predicate IsSettingsKey(k: string) {
    k == FONT_FAMILY || k == FONT_WEIGHT || k == FONT_STYLE || k == TEXT_DECORATION
  }

  /**
   * `newStyles` of `handleSettingsChange`: the old styles with fontFamily
   * taken from the change when it names a non-empty one, and weight, style
   * and decoration set from this change's flags alone. A fontFamily that is
   * neither in the change nor in the old styles stays absent.
   */
  function SettingsStyles(styles: Styles, p: SettingsPatch): (r: Styles)
    ensures forall k :: k in styles && !IsSettingsKey(k) ==> k in r && r[k] == styles[k]
    ensures forall k :: k in r ==> k in styles || IsSettingsKey(k)
    ensures FONT_WEIGHT in r && r[FONT_WEIGHT] == (if p.isBold == Some(true) then "bold" else "normal")
    ensures FONT_STYLE in r && r[FONT_STYLE] == (if p.isItalic == Some(true) then "italic" else "normal")
    ensures TEXT_DECORATION in r && r[TEXT_DECORATION] == (if p.isUnderlined == Some(true) then "underline" else "none")
    ensures FONT_FAMILY in r <==> Truthy(p.fontFamily) || FONT_FAMILY in styles
    ensures Truthy(p.fontFamily) ==> r[FONT_FAMILY] == p.fontFamily.value
    ensures !Truthy(p.fontFamily) && FONT_FAMILY in styles ==> r[FONT_FAMILY] == styles[FONT_FAMILY]
  {
    var family :=
      if Truthy(p.fontFamily) then map[FONT_FAMILY := p.fontFamily.value]
      else if FONT_FAMILY in styles then map[FONT_FAMILY := styles[FONT_FAMILY]]
      else map[];
    (styles - {FONT_FAMILY}) + family
    + map[FONT_WEIGHT := if p.isBold == Some(true) then "bold" else "normal",
          FONT_STYLE := if p.isItalic == Some(true) then "italic" else "normal",
          TEXT_DECORATION := if p.isUnderlined == Some(true) then "underline" else "none"]
  }

  /** A change of type alone keeps the font and every other style, and resets weight, style and decoration. */
  lemma TypeChangeResetsEmphasis(styles: Styles, t: string)
    ensures var r := SettingsStyles(styles, TypeOnly(t));
      && r[FONT_WEIGHT] == "normal" && r[FONT_STYLE] == "normal" && r[TEXT_DECORATION] == "none"
      && (FONT_FAMILY in r <==> FONT_FAMILY in styles)
      && (FONT_FAMILY in styles ==> r[FONT_FAMILY] == styles[FONT_FAMILY])
      && forall k :: k in styles && !IsSettingsKey(k) ==> r[k] == styles[k]
  {
  }

  /** Recomputing the styles from the same change a second time changes nothing. */
  lemma SettingsStylesIdempotent(styles: Styles, p: SettingsPatch)
    ensures SettingsStyles(SettingsStyles(styles, p), p) == SettingsStyles(styles, p)
  {
    var once := SettingsStyles(styles, p);
    var twice := SettingsStyles(once, p);
    assert twice.Keys == once.Keys;
  }

  /**
   * Because the emphasis styles follow the change rather than the merged
   * settings, any change that does not mention bold (italic on, a new font,
   * a new type) leaves a bold block bold in its settings and normal in its
   * styles.
   */
  lemma UnrelatedChangeDropsBold(settings: TextSettings, styles: Styles, p: SettingsPatch)
    requires settings.isBold && p.isBold.None?
    ensures MergeSettings(settings, p).isBold
    ensures SettingsStyles(styles, p)[FONT_WEIGHT] == "normal"
  {
  }

  /** The emphasis styles computed from the merged settings, so that styles and settings agree. */
  function SettingsStylesFromMerged(styles: Styles, prev: TextSettings, p: SettingsPatch): (r: Styles)
    ensures FONT_WEIGHT in r && FONT_STYLE in r && TEXT_DECORATION in r
    ensures forall k :: k in styles && !IsSettingsKey(k) ==> k in r && r[k] == styles[k]
  {
    var s := MergeSettings(prev, p);
    SettingsStyles(styles, SettingsPatch(p.kind, p.linkType, p.url, p.fontFamily, Some(s.isBold), Some(s.isItalic), Some(s.isUnderlined)))
  }

  /** With the merged flags, each emphasis style shows exactly its setting, whatever the change. */
  lemma MergedStylesMatchSettings(styles: Styles, prev: TextSettings, p: SettingsPatch)
    ensures var s := MergeSettings(prev, p);
      var r := SettingsStylesFromMerged(styles, prev, p);
      && (r[FONT_WEIGHT] == "bold" <==> s.isBold)
      && (r[FONT_STYLE] == "italic" <==> s.isItalic)
      && (r[TEXT_DECORATION] == "underline" <==> s.isUnderlined)
  {
  }

  // ---------------------------------------------------------------------------
  // Tables and initial state

  /** The element the block renders as, by the type in its settings. */
  function TagFor(kind: string): (r: string)
    ensures r == "h1" <==> kind == HEADLINE
    ensures r == "h2" <==> kind == SUBHEADER
    ensures r == "p" <==> kind == BODY || kind == PARAGRAPH
    ensures r == "blockquote" <==> kind == QUOTE
    ensures r == "div" <==> !(kind == HEADLINE || kind == SUBHEADER || kind == BODY || kind == PARAGRAPH || kind == QUOTE)
  {
    if kind == HEADLINE then "h1"
    else if kind == SUBHEADER then "h2"
    else if kind == BODY || kind == PARAGRAPH then "p"
    else if kind == QUOTE then "blockquote"
    else "div"
  }

  /** The text shown when the block is empty; a HEADLINE and any unknown type get none. */
  function DefaultContent(kind: string): (r: string)
    ensures r == "" <==> !(kind == SUBHEADER || kind == BODY || kind == PARAGRAPH || kind == QUOTE)
    ensures kind == SUBHEADER ==> r == "Subheader Text"
    ensures kind == BODY ==> r == "Body text. Click to edit..."
    ensures kind == PARAGRAPH ==> r == "Paragraph text. Click to edit..."
    ensures kind == QUOTE ==> r == "Quote text. Click to edit..."
  {
    if kind == SUBHEADER then "Subheader Text"
    else if kind == BODY then "Body text. Click to edit..."
    else if kind == PARAGRAPH then "Paragraph text. Click to edit..."
    else if kind == QUOTE then "Quote text. Click to edit..."
    else ""
  }

  const DEFAULT_FONT: string := "Arial"

  /** `{ color: '#000000', fontFamily: 'Arial', ...component.styles }` */
  function InitialStyles(c: Component): (r: Styles)
    ensures "color" in r && FONT_FAMILY in r
    ensures forall k :: k in r <==> k == "color" || k == FONT_FAMILY || (c.styles.Some? && k in c.styles.value)
    ensures c.styles.Some? ==> forall k :: k in c.styles.value ==> r[k] == c.styles.value[k]
    ensures (c.styles.None? || "color" !in c.styles.value) ==> r["color"] == DEFAULT_COLOR
    ensures (c.styles.None? || FONT_FAMILY !in c.styles.value) ==> r[FONT_FAMILY] == DEFAULT_FONT
  {
    map["color" := DEFAULT_COLOR, FONT_FAMILY := DEFAULT_FONT] + match c.styles case None => map[] case Some(s) => s
  }

  /** `component.content || ''` */
  function ContentOf(c: Component): (r: string)
    ensures c.content.Some? ==> r == c.content.value
    ensures c.content.None? ==> r == ""
  {
    match c.content
    case None => ""
    case Some(s) => s
  }

  /** The initial settings: the node's type (BODY when it has none), no link, Arial, no emphasis. */
  function InitialSettings(c: Component): (r: TextSettings)
    ensures r.kind == (if c.kind == "" then BODY else c.kind)
    ensures r.linkType == "none" && r.url.None? && r.fontFamily == DEFAULT_FONT
    ensures !r.isBold && !r.isItalic && !r.isUnderlined
  {
    TextSettings(if c.kind == "" then BODY else c.kind, "none", None, DEFAULT_FONT, false, false, false)
  }

  // ---------------------------------------------------------------------------
  // Hover

  /** The hover guard: any drag other than the block itself is moved after it, containers included. */
  function TextHoverGuard(component: Component, item: DragItem): (r: Option<MoveCall>)
    ensures r.Some? <==> item.id != Some(component.id)
    ensures r.Some? ==> r.value.dragId == item.id && r.value.hoverId == component.id
  {
    if item.id != Some(component.id) then Some(MoveCall(item.id, component.id)) else None
  }

  /**
   * The editor state after this block handles a hover: a hover over itself or
   * by an item without id changes nothing; otherwise nothing outside the
   * dragged subtree changes, and the subtree is moved after this block or,
   * when this block lies inside it, lost.
   */
  function AfterTextHover(prev: seq<Component>, component: Component, item: DragItem): (r: seq<Component>)
    ensures item.id.None? || item.id == Some(component.id) ==> r == prev
    ensures item.id.Some? ==> Remove(r, item.id.value) == Remove(prev, item.id.value)
    ensures item.id.Some? && item.id != Some(component.id) ==> r == Move(prev, item.id.value, component.id)
  {
    match TextHoverGuard(component, item)
    case None => prev
    case Some(call) =>
      MoveItemOnlyRelocatesDragged(prev, call.dragId, call.hoverId);
      MoveItem(prev, call.dragId, call.hoverId)
  }

  /**
   * Drop a CONTAINER on the canvas, drop a BODY into it, then drag the
   * container over its own text: the container and its text are gone.
   */
  lemma TextHoverLosesContainer()
    ensures var s1 := Drop([], None, CONTAINER, "c");
            var s2 := Drop(s1, Some("c"), BODY, "t");
            var t := Kids(s2[0])[0];
            && |s2| == 1 && t.id == "t" && s2[0].kind == CONTAINER
            && AfterTextHover(s2, t, DragItemOf(s2[0])) == []
  {
    var s1 := Drop([], None, CONTAINER, "c");
    var c := s1[0];
    var n := NewComponent("t", BODY);
    var s2 := Drop(s1, Some("c"), BODY, "t");
    assert s1 == [NewComponent("c", CONTAINER)];
    assert c.id == "c" && Kids(c) == [];
    assert [] + [n] == [n];
    assert s2 == [c.(children := Present([n]))];
    var top := s2[0];
    assert Find(s2, "c") == Some(top);
    assert Find(s2, "t") == Some(n) by {
      assert Find([n], "t") == Some(n);
    }
    assert Remove(s2, "c") == [] by {
      assert s2[1..] == [];
    }
  }

  /** The hover guard with the subtree check the move lacks. */
  function AfterTextHoverChecked(prev: seq<Component>, component: Component, item: DragItem): seq<Component>
  {
    match TextHoverGuard(component, item)
    case None => prev
    case Some(call) =>
      match call.dragId
      case None => prev
      case Some(d) => MoveChecked(prev, d, call.hoverId)
  }

  /** With the subtree check, a text hover keeps every node, containers included. */
  lemma TextHoverCheckedKeepsNodes(prev: seq<Component>, component: Component, item: DragItem)
    requires UniqueIds(prev)
    ensures forall x :: Count(AfterTextHoverChecked(prev, component, item), x) == Count(prev, x)
    ensures UniqueIds(AfterTextHoverChecked(prev, component, item))
  {
    if TextHoverGuard(component, item).Some? && item.id.Some? {
      MoveCheckedKeepsNodes(prev, item.id.value, component.id);
    }
  }

  // ---------------------------------------------------------------------------
  // The block's state

  /** One mounted text block: its node, its local edits, and the saved caret. */
  class TextEditor {
    var component: Component
    var content: string
    var styles: Styles
    var settings: TextSettings
    var isEditing: bool
    var lastSelection: Option<Saved>

    constructor (c: Component)
      ensures component == c
      ensures content == ContentOf(c) && styles == InitialStyles(c) && settings == InitialSettings(c)
      ensures !isEditing && lastSelection.None?
    {
      component := c;
      content := ContentOf(c);
      styles := InitialStyles(c);
      settings := InitialSettings(c);
      isEditing := false;
      lastSelection := None;
    }

    /** A new node from the editor: the local text is reset only when the node's content changed. */
    method ReceiveComponent(c: Component)
      modifies this
      ensures component == c
      ensures content == if c.content != old(component.content) then ContentOf(c) else old(content)
      ensures styles == old(styles) && settings == old(settings)
      ensures isEditing == old(isEditing) && lastSelection == old(lastSelection)
    {
      if c.content != component.content {
        content := ContentOf(c);
      }
      component := c;
    }

    method HandleFocus()
      modifies this
      ensures isEditing
      ensures component == old(component) && content == old(content) && styles == old(styles)
      ensures settings == old(settings) && lastSelection == old(lastSelection)
    {
      isEditing := true;
    }

    /** `saveSelection` */
    method SaveSelection(observed: Option<RangeLengths>)
      modifies this
      ensures lastSelection == SaveOffsets(old(lastSelection), observed)
      ensures component == old(component) && content == old(content) && styles == old(styles)
      ensures settings == old(settings) && isEditing == old(isEditing)
    {
      lastSelection := SaveOffsets(lastSelection, observed);
    }

    /**
     * `handleContentChange`: save the caret, then take the element's text
     * (`None` when it has none). Restoring the caret afterwards is
     * `RestoreSelection`, which the browser runs on a later tick.
     */
    method HandleContentChange(observed: Option<RangeLengths>, text: Option<string>)
      modifies this
      ensures lastSelection == SaveOffsets(old(lastSelection), observed)
      ensures content == match text case None => "" case Some(s) => s
      ensures component == old(component) && styles == old(styles)
      ensures settings == old(settings) && isEditing == old(isEditing)
    {
      SaveSelection(observed);
      content := match text case None => "" case Some(s) => s;
    }

    /** `handleBlur`: stop editing, commit the content, then the styles. */
    method HandleBlur(editor: Editor)
      modifies this, editor
      ensures !isEditing
      ensures editor.components
           == SetStyles(Update(old(editor.components), component.id, content), component.id, styles)
      ensures component == old(component) && content == old(content) && styles == old(styles)
      ensures settings == old(settings) && lastSelection == old(lastSelection)
    {
      isEditing := false;
      editor.HandleUpdate(component.id, content);
      editor.HandleStyleChange(component.id, styles);
    }

    /** `handleSettingsChange`: merge the settings, recompute the styles and commit them. */
    method HandleSettingsChange(p: SettingsPatch, editor: Editor)
      modifies this, editor
      ensures settings == MergeSettings(old(settings), p)
      ensures styles == SettingsStyles(old(styles), p)
      ensures editor.components == SetStyles(old(editor.components), component.id, styles)
      ensures component == old(component) && content == old(content)
      ensures isEditing == old(isEditing) && lastSelection == old(lastSelection)
    {
      settings := MergeSettings(settings, p);
      var newStyles := SettingsStyles(styles, p);
      styles := newStyles;
      editor.HandleStyleChange(component.id, newStyles);
    }

    /** `handleTypeChange`: a settings change naming only the type; the tag follows it. */
    method HandleTypeChange(t: string, editor: Editor)
      modifies this, editor
      ensures settings == MergeSettings(old(settings), TypeOnly(t)) && TagFor(settings.kind) == TagFor(t)
      ensures styles == SettingsStyles(old(styles), TypeOnly(t))
      ensures editor.components == SetStyles(old(editor.components), component.id, styles)
      ensures component == old(component) && content == old(content)
      ensures isEditing == old(isEditing) && lastSelection == old(lastSelection)
    {
      HandleSettingsChange(TypeOnly(t), editor);
    }

    /** The color picker: a local style edit, committed only by Save or blur. */
    method SetColor(color: string)
      modifies this
      ensures styles == old(styles)["color" := color]
      ensures component == old(component) && content == old(content) && settings == old(settings)
      ensures isEditing == old(isEditing) && lastSelection == old(lastSelection)
    {
      styles := styles["color" := color];
    }

    /** The font-size slider: the slider value with `px` appended, kept locally. */
    method SetFontSize(size: string)
      modifies this
      ensures styles == old(styles)["fontSize" := size + "px"]
      ensures component == old(component) && content == old(content) && settings == old(settings)
      ensures isEditing == old(isEditing) && lastSelection == old(lastSelection)
    {
      styles := styles["fontSize" := size + "px"];
    }

    /** The Save button of the settings dialog: commit the local styles. */
    method SaveStyles(editor: Editor)
      modifies editor
      ensures editor.components == SetStyles(old(editor.components), component.id, styles)
    {
      editor.HandleStyleChange(component.id, styles);
    }
  }
}

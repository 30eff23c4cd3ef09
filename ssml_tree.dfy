/**
 * The SSML document tree: containers (`speak`, `prosody`, `voice`, `lang`)
 * hold an ordered list of children, leaves (`break`, `_plain`, `say-as`,
 * `sub`) hold text. Two passes rewrite the tree in place: `normalize` sends
 * leaf text through the normalizer of the inherited `xml:lang`, and
 * `merge_children` fuses runs of adjacent text leaves.
 *
 * `Node` is the value a subtree denotes; `NormalizeTree` and `MergeTree`
 * say what the two passes do to it, and the lemmas below are about them.
 * The class `Element` is the mutable tree, and each of its methods is proved
 * to turn the subtree's `model` into the value those functions give.
 */
module SsmlTree {
  import opened Wrappers
  import opened Strings

  /** The element classes, one per `__tagname__`. */
  datatype Tag = Speak | Prosody | Voice | Lang | Break | PlainText | SayAs | Sub

  function TagName(t: Tag): string
  {
    match t
    case Speak => "speak"
    case Prosody => "prosody"
    case Voice => "voice"
    case Lang => "lang"
    case Break => "break"
    case PlainText => "_plain"
    case SayAs => "say-as"
    case Sub => "sub"
  }

  /** The subclasses of `SsmlLeafElement`. */
  predicate IsLeafTag(t: Tag)
  {
    t.Break? || t.PlainText? || t.SayAs? || t.Sub?
  }

  /** The leaves whose `can_merge` can hold. */
  predicate Textual(t: Tag)
  {
    t.PlainText? || t.SayAs? || t.Sub?
  }

  /** `a.can_merge(b)`: false for containers and `break`, otherwise whether `b` is `_plain`, `say-as` or `sub`. */
  predicate CanMerge(a: Tag, b: Tag)
  {
    Textual(a) && Textual(b)
  }

  /** `can_merge` holds exactly when both tag names are among `_plain`, `say-as` and `sub`. */
  lemma CanMergeByName(a: Tag, b: Tag)
    ensures CanMerge(a, b) <==> TagName(a) in ["_plain", "say-as", "sub"] && TagName(b) in ["_plain", "say-as", "sub"]
  {
  }

  /** Distinct classes have distinct tag names, so the parser's registry has one entry per class. */
  lemma TagNameInjective(a: Tag, b: Tag)
    ensures TagName(a) == TagName(b) ==> a == b
  {
  }

  type Attrs = map<string, string>

  /** A per-language normalizer: `Normalizer.normalize(text=..., attrs=...)`. */
  type Normalizer = (string, Attrs) -> string

  const XmlLang: string := "xml:lang"

  // ---------------------------------------------------------------------------
  // The value of a subtree
  // ---------------------------------------------------------------------------

  datatype Node = Container(tag: Tag, attrs: Attrs, kids: seq<Node>) | Leaf(tag: Tag, attrs: Attrs, text: string)

  /** Leaves carry leaf tags and containers container tags, all the way down. */
  predicate WellFormed(n: Node)
    decreases n
  {
    match n
    case Leaf(tag, _, _) => IsLeafTag(tag)
    case Container(tag, _, kids) => !IsLeafTag(tag) && forall i :: 0 <= i < |kids| ==> WellFormed(kids[i])
  }

  predicate AllWellFormed(ns: seq<Node>)
  {
    forall i :: 0 <= i < |ns| ==> WellFormed(ns[i])
  }

  /** The text a subtree reads out: its leaf texts in document order. */
  function TreeText(n: Node): string
    decreases n
  {
    match n
    case Leaf(_, _, text) => text
    case Container(_, _, kids) => TextsOf(kids)
  }

  function TextsOf(ns: seq<Node>): string
    decreases ns
  {
    if ns == [] then "" else TreeText(ns[0]) + TextsOf(ns[1..])
  }

  lemma TextsOfCons(n: Node, ns: seq<Node>)
    ensures TextsOf([n] + ns) == TreeText(n) + TextsOf(ns)
  {
    assert ([n] + ns)[0] == n && ([n] + ns)[1..] == ns;
  }

  // ---------------------------------------------------------------------------
  // merge_children
  // ---------------------------------------------------------------------------

  /**
   * `a.merge(b)` for mergeable leaves: `_plain` appends `b`'s text to its own
   * and keeps its attributes; `say-as` and `sub` give a new `_plain` with no
   * attributes holding both texts.
   */
  function Merged(a: Node, b: Node): (r: Node)
    requires a.Leaf? && b.Leaf?
    ensures WellFormed(r) && r.tag == PlainText && TreeText(r) == a.text + b.text
  {
    Leaf(PlainText, if a.tag == PlainText then a.attrs else map[], a.text + b.text)
  }

  /** The accumulator loop of `merge_children` from `current` over the remaining children. */
  function MergeRun(cur: Node, rest: seq<Node>): (r: seq<Node>)
    requires WellFormed(cur) && AllWellFormed(rest)
    ensures 1 <= |r| <= |rest| + 1 && AllWellFormed(r)
    decreases |rest|
  {
    if rest == [] then [cur]
    else if CanMerge(cur.tag, rest[0].tag) then MergeRun(Merged(cur, rest[0]), rest[1..])
    else [cur] + MergeRun(rest[0], rest[1..])
  }

  /** One level of `merge_children`: nothing for no children, otherwise the loop from the first. */
  function MergeList(ns: seq<Node>): (r: seq<Node>)
    requires AllWellFormed(ns)
    ensures |r| <= |ns| && (r == [] <==> ns == []) && AllWellFormed(r)
  {
    if ns == [] then [] else MergeRun(ns[0], ns[1..])
  }

  /** `merge_children` on a subtree: containers below first, then this level; leaves are left alone. */
  function MergeTree(n: Node): (r: Node)
    requires WellFormed(n)
    ensures WellFormed(r) && r.tag == n.tag && r.Leaf? == n.Leaf? && r.attrs == n.attrs
    decreases n
  {
    match n
    case Leaf(_, _, _) => n
    case Container(tag, attrs, kids) => Container(tag, attrs, MergeList(MergeEach(kids)))
  }

  function MergeEach(ns: seq<Node>): (r: seq<Node>)
    requires AllWellFormed(ns)
    ensures |r| == |ns| && AllWellFormed(r) && forall i :: 0 <= i < |ns| ==> r[i] == MergeTree(ns[i])
    decreases ns
  {
    if ns == [] then [] else [MergeTree(ns[0])] + MergeEach(ns[1..])
  }

  /** One turn of the loop, seen from position `i` of the children. */
  lemma MergeRunStep(cur: Node, ms: seq<Node>, i: nat)
    requires WellFormed(cur) && AllWellFormed(ms) && i < |ms|
    ensures MergeRun(cur, ms[i..]) ==
      if CanMerge(cur.tag, ms[i].tag) then MergeRun(Merged(cur, ms[i]), ms[i + 1..]) else [cur] + MergeRun(ms[i], ms[i + 1..])
  {
    assert ms[i..][0] == ms[i] && ms[i..][1..] == ms[i + 1..];
  }

  /** A run that cannot take in the next node is finished: that node starts the next run. */
  lemma RunClosed(ms: seq<Node>, done: seq<Node>, cur: Node, i: nat)
    requires WellFormed(cur) && AllWellFormed(ms) && i < |ms| && !CanMerge(cur.tag, ms[i].tag)
    requires MergeList(ms) == done + MergeRun(cur, ms[i..])
    ensures MergeList(ms) == (done + [cur]) + MergeRun(ms[i], ms[i + 1..])
  {
    MergeRunStep(cur, ms, i);
    ConsAssoc(done, cur, MergeRun(ms[i], ms[i + 1..]));
  }

  lemma ConsAssoc(done: seq<Node>, cur: Node, run: seq<Node>)
    ensures done + ([cur] + run) == (done + [cur]) + run
  {
  }

  /** No two neighbours could merge. */
  predicate NoAdjacent(ns: seq<Node>)
  {
    forall i :: 0 <= i < |ns| - 1 ==> !CanMerge(ns[i].tag, ns[i + 1].tag)
  }

  /** The loop's first result is textual exactly when `current` is, and is `current` itself when that cannot merge. */
  lemma {:induction false} MergeRunHead(cur: Node, rest: seq<Node>)
    requires WellFormed(cur) && AllWellFormed(rest)
    ensures Textual(MergeRun(cur, rest)[0].tag) == Textual(cur.tag)
    ensures !Textual(cur.tag) ==> MergeRun(cur, rest)[0] == cur
    decreases |rest|
  {
    if rest != [] && CanMerge(cur.tag, rest[0].tag) {
      MergeRunHead(Merged(cur, rest[0]), rest[1..]);
    }
  }

  /** After the loop no adjacent pair of children can merge. */
  lemma {:induction false} MergeRunNoAdjacent(cur: Node, rest: seq<Node>)
    requires WellFormed(cur) && AllWellFormed(rest)
    ensures NoAdjacent(MergeRun(cur, rest))
    decreases |rest|
  {
    if rest != [] {
      if CanMerge(cur.tag, rest[0].tag) {
        MergeRunNoAdjacent(Merged(cur, rest[0]), rest[1..]);
      } else {
        var tail := MergeRun(rest[0], rest[1..]);
        MergeRunNoAdjacent(rest[0], rest[1..]);
        MergeRunHead(rest[0], rest[1..]);
        var r := [cur] + tail;
        forall i | 0 <= i < |r| - 1 ensures !CanMerge(r[i].tag, r[i + 1].tag) {
          if i > 0 {
            assert r[i] == tail[i - 1] && r[i + 1] == tail[i];
          }
        }
      }
    }
  }

  lemma MergeListNoAdjacent(ns: seq<Node>)
    requires AllWellFormed(ns)
    ensures NoAdjacent(MergeList(ns))
  {
    if ns != [] {
      MergeRunNoAdjacent(ns[0], ns[1..]);
    }
  }

  /** The loop keeps the text of the children, in order. */
  lemma {:induction false} MergeRunText(cur: Node, rest: seq<Node>)
    requires WellFormed(cur) && AllWellFormed(rest)
    ensures TextsOf(MergeRun(cur, rest)) == TreeText(cur) + TextsOf(rest)
    decreases |rest|
  {
    if rest == [] {
      TextsOfCons(cur, []);
    } else if CanMerge(cur.tag, rest[0].tag) {
      MergeRunText(Merged(cur, rest[0]), rest[1..]);
      assert TextsOf(rest) == TreeText(rest[0]) + TextsOf(rest[1..]);
    } else {
      MergeRunText(rest[0], rest[1..]);
      TextsOfCons(cur, MergeRun(rest[0], rest[1..]));
    }
  }

  lemma MergeListText(ns: seq<Node>)
    requires AllWellFormed(ns)
    ensures TextsOf(MergeList(ns)) == TextsOf(ns)
  {
    if ns != [] {
      MergeRunText(ns[0], ns[1..]);
    }
  }

  /** `merge_children` keeps the text a subtree reads out. */
  lemma {:induction false} MergeTreeText(n: Node)
    requires WellFormed(n)
    ensures TreeText(MergeTree(n)) == TreeText(n)
    decreases n
  {
    if n.Container? {
      MergeEachText(n.kids);
      MergeListText(MergeEach(n.kids));
    }
  }

  lemma {:induction false} MergeEachText(ns: seq<Node>)
    requires AllWellFormed(ns)
    ensures TextsOf(MergeEach(ns)) == TextsOf(ns)
    decreases ns
  {
    if ns != [] {
      MergeTreeText(ns[0]);
      MergeEachText(ns[1..]);
      TextsOfCons(MergeTree(ns[0]), MergeEach(ns[1..]));
    }
  }

  /** A subtree `merge_children` has nothing left to do on: every level free of mergeable neighbours. */
  predicate Compact(n: Node)
    decreases n
  {
    match n
    case Leaf(_, _, _) => true
    case Container(_, _, kids) => NoAdjacent(kids) && forall i :: 0 <= i < |kids| ==> Compact(kids[i])
  }

  /** Every child the loop leaves is `current`, one of the remaining children, or a merged leaf. */
  lemma {:induction false} MergeRunCompact(cur: Node, rest: seq<Node>)
    requires WellFormed(cur) && AllWellFormed(rest)
    requires Compact(cur) && forall i :: 0 <= i < |rest| ==> Compact(rest[i])
    ensures forall i :: 0 <= i < |MergeRun(cur, rest)| ==> Compact(MergeRun(cur, rest)[i])
    decreases |rest|
  {
    if rest != [] {
      if CanMerge(cur.tag, rest[0].tag) {
        MergeRunCompact(Merged(cur, rest[0]), rest[1..]);
      } else {
        MergeRunCompact(rest[0], rest[1..]);
      }
    }
  }

  /** `merge_children` leaves a compact subtree. */
  lemma {:induction false} MergeTreeCompact(n: Node)
    requires WellFormed(n)
    ensures Compact(MergeTree(n))
    decreases n
  {
    if n.Container? {
      var ms := MergeEach(n.kids);
      forall i | 0 <= i < |ms| ensures Compact(ms[i]) {
        MergeTreeCompact(n.kids[i]);
      }
      MergeListNoAdjacent(ms);
      if ms != [] {
        MergeRunCompact(ms[0], ms[1..]);
      }
    }
  }

  /** With no mergeable neighbours the loop gives the children back. */
  lemma {:induction false} MergeRunNone(cur: Node, rest: seq<Node>)
    requires WellFormed(cur) && AllWellFormed(rest) && NoAdjacent([cur] + rest)
    ensures MergeRun(cur, rest) == [cur] + rest
    decreases |rest|
  {
    if rest != [] {
      var all := [cur] + rest;
      assert all[0] == cur && all[1] == rest[0];
      assert NoAdjacent(rest) by {
        forall i | 0 <= i < |rest| - 1 ensures !CanMerge(rest[i].tag, rest[i + 1].tag) {
          assert rest[i] == all[i + 1] && rest[i + 1] == all[i + 2];
        }
      }
      assert [rest[0]] + rest[1..] == rest;
      MergeRunNone(rest[0], rest[1..]);
    }
  }

  /** `merge_children` does nothing on a compact subtree. */
  lemma {:induction false} CompactFixed(n: Node)
    requires WellFormed(n) && Compact(n)
    ensures MergeTree(n) == n
    decreases n
  {
    if n.Container? {
      var kids := n.kids;
      forall i | 0 <= i < |kids| ensures MergeTree(kids[i]) == kids[i] {
        CompactFixed(kids[i]);
      }
      assert MergeEach(kids) == kids;
      if kids != [] {
        assert [kids[0]] + kids[1..] == kids;
        MergeRunNone(kids[0], kids[1..]);
      }
    }
  }

  /** Running `merge_children` a second time changes nothing. */
  lemma MergeTreeIdempotent(n: Node)
    requires WellFormed(n)
    ensures MergeTree(MergeTree(n)) == MergeTree(n)
  {
    MergeTreeCompact(n);
    CompactFixed(MergeTree(n));
  }

  // ---------------------------------------------------------------------------
  // normalize
  // ---------------------------------------------------------------------------

  /** The `xml:lang` in force below an element: its own, else the inherited one. */
  function LangBelow(attrs: Attrs, inherited: Option<string>): Option<string>
  {
    if XmlLang in attrs then Some(attrs[XmlLang]) else inherited
  }

  /**
   * The text of a leaf after `normalize`: `break` becomes empty, `sub` becomes
   * its `alias` when it has one, and the others go through the normalizer of
   * their language when there is one for it.
   */
  function NormalizeLeaf(tag: Tag, attrs: Attrs, text: string, lang: Option<string>, normalizers: map<string, Normalizer>): string
  {
    match tag
    case Break => ""
    case Sub => if "alias" in attrs then attrs["alias"] else text
    case _ => if lang.Some? && lang.value in normalizers then normalizers[lang.value](text, attrs) else text
  }

  /** `normalize` on a subtree whose ancestors give language `inherited`. */
  function NormalizeTree(n: Node, inherited: Option<string>, normalizers: map<string, Normalizer>): (r: Node)
    decreases n
  {
    match n
    case Leaf(tag, attrs, text) => Leaf(tag, attrs, NormalizeLeaf(tag, attrs, text, LangBelow(attrs, inherited), normalizers))
    case Container(tag, attrs, kids) => Container(tag, attrs, NormalizeEach(kids, LangBelow(attrs, inherited), normalizers))
  }

  function NormalizeEach(ns: seq<Node>, lang: Option<string>, normalizers: map<string, Normalizer>): (r: seq<Node>)
    ensures |r| == |ns| && forall i :: 0 <= i < |ns| ==> r[i] == NormalizeTree(ns[i], lang, normalizers)
    decreases ns
  {
    if ns == [] then [] else [NormalizeTree(ns[0], lang, normalizers)] + NormalizeEach(ns[1..], lang, normalizers)
  }

  /** A subtree with every leaf text erased: what `normalize` may not change. */
  function Shape(n: Node): Node
    decreases n
  {
    match n
    case Leaf(tag, attrs, _) => Leaf(tag, attrs, "")
    case Container(tag, attrs, kids) => Container(tag, attrs, seq(|kids|, i requires 0 <= i < |kids| => Shape(kids[i])))
  }

  /** A container normalizes to the same container holding its normalized children. */
  lemma NormalizeContainer(m: Node, inherited: Option<string>, lang: Option<string>, normalizers: map<string, Normalizer>)
    requires m.Container? && WellFormed(m) && lang == LangBelow(m.attrs, inherited)
    ensures var ns := NormalizeEach(m.kids, lang, normalizers);
      NormalizeTree(m, inherited, normalizers) == Container(m.tag, m.attrs, ns)
      && |ns| == |m.kids| && WellFormed(Container(m.tag, m.attrs, ns))
  {
    NormalizeShape(m, inherited, normalizers);
  }

  /** `normalize` changes leaf texts only: tags, attributes and the child lists stay as they are. */
  lemma {:induction false} NormalizeShape(n: Node, inherited: Option<string>, normalizers: map<string, Normalizer>)
    ensures Shape(NormalizeTree(n, inherited, normalizers)) == Shape(n)
    ensures WellFormed(NormalizeTree(n, inherited, normalizers)) == WellFormed(n)
    decreases n
  {
    if n.Container? {
      var lang := LangBelow(n.attrs, inherited);
      forall i | 0 <= i < |n.kids|
        ensures Shape(NormalizeTree(n.kids[i], lang, normalizers)) == Shape(n.kids[i])
        ensures WellFormed(NormalizeTree(n.kids[i], lang, normalizers)) == WellFormed(n.kids[i])
      {
        NormalizeShape(n.kids[i], lang, normalizers);
      }
    }
  }

  /** Every `break` below reads nothing. */
  predicate Silent(n: Node)
    decreases n
  {
    match n
    case Leaf(tag, _, text) => tag == Break ==> text == ""
    case Container(_, _, kids) => forall i :: 0 <= i < |kids| ==> Silent(kids[i])
  }

  /** After `normalize` every `break` is empty, whatever the normalizers. */
  lemma {:induction false} NormalizeSilent(n: Node, inherited: Option<string>, normalizers: map<string, Normalizer>)
    ensures Silent(NormalizeTree(n, inherited, normalizers))
    decreases n
  {
    if n.Container? {
      forall i | 0 <= i < |n.kids| ensures Silent(NormalizeTree(n.kids[i], LangBelow(n.attrs, inherited), normalizers)) {
        NormalizeSilent(n.kids[i], LangBelow(n.attrs, inherited), normalizers);
      }
    }
  }

  /** With no normalizer for any language, only `break` and `sub` leaves change. */
  lemma {:induction false} NormalizeWithout(n: Node, inherited: Option<string>)
    ensures Unnormalized(n, NormalizeTree(n, inherited, map[]))
    decreases n
  {
    if n.Container? {
      forall i | 0 <= i < |n.kids| ensures Unnormalized(n.kids[i], NormalizeTree(n.kids[i], LangBelow(n.attrs, inherited), map[])) {
        NormalizeWithout(n.kids[i], LangBelow(n.attrs, inherited));
      }
    }
  }

  /** `after` is `before` with only `break` and `sub` texts changed. */
  predicate Unnormalized(before: Node, after: Node)
    decreases before
  {
    match before
    case Leaf(tag, attrs, text) => after.Leaf? && after.tag == tag && after.attrs == attrs && (tag != Break && tag != Sub ==> after.text == text)
    case Container(tag, attrs, kids) =>
      after.Container? && after.tag == tag && after.attrs == attrs && |after.kids| == |kids|
      && forall i :: 0 <= i < |kids| ==> Unnormalized(kids[i], after.kids[i])
  }

  // ---------------------------------------------------------------------------
  // The mutable tree
  // ---------------------------------------------------------------------------

  class Element {
    const tag: Tag
    const attrs: Attrs
    const parent: Element?
    /** The length of the parent chain; it makes `_get_attr_in_path` terminate. */
    ghost const depth: nat
    var text: string
    var children: seq<Element>
    ghost var Repr: set<object>
    ghost var model: Node

    /** The parent chain is finite. */
    ghost predicate Rooted()
      decreases depth
    {
      parent != null ==> parent.depth < depth && parent.Rooted()
    }

    ghost predicate Valid()
      reads this, Repr
      decreases Repr
    {
      this in Repr && Rooted() && WellFormed(model) && model.tag == tag && model.attrs == attrs
      && (IsLeafTag(tag) ==> children == [] && Repr == {this} && model == Leaf(tag, attrs, text))
      && (!IsLeafTag(tag) ==>
            model.Container? && |model.kids| == |children|
            && (forall i :: 0 <= i < |children| ==>
                  children[i] in Repr && children[i].Repr <= Repr && this !in children[i].Repr
                  && children[i].parent == this && children[i].model == model.kids[i] && children[i].Valid())
            && (forall i, j :: 0 <= i < j < |children| ==> children[i].Repr !! children[j].Repr))
    }

    /** `SsmlLeafElement(parent, attrs, text)`. */
    constructor InitLeaf(tag: Tag, parent: Element?, attrs: Attrs, text: string)
      requires IsLeafTag(tag) && (parent != null ==> parent.Rooted())
      ensures Valid() && fresh(Repr) && Repr == {this}
      ensures this.tag == tag && this.parent == parent && this.attrs == attrs && this.text == text
      ensures model == Leaf(tag, attrs, text)
    {
      this.tag := tag;
      this.attrs := attrs;
      this.parent := parent;
      this.depth := if parent == null then 0 else parent.depth + 1;
      this.text := text;
      children := [];
      Repr := {this};
      model := Leaf(tag, attrs, text);
    }

    /** `SsmlNodeElement(parent, attrs)`, with no children yet. */
    constructor InitContainer(tag: Tag, parent: Element?, attrs: Attrs)
      requires !IsLeafTag(tag) && (parent != null ==> parent.Rooted())
      ensures Valid() && fresh(Repr) && Repr == {this}
      ensures this.tag == tag && this.parent == parent && this.attrs == attrs && children == []
      ensures model == Container(tag, attrs, [])
    {
      this.tag := tag;
      this.attrs := attrs;
      this.parent := parent;
      this.depth := if parent == null then 0 else parent.depth + 1;
      this.text := "";
      children := [];
      Repr := {this};
      model := Container(tag, attrs, []);
    }

    /** `children.append(c)` on a container, for a child built under it. */
    method AppendChild(c: Element)
      requires Valid() && !IsLeafTag(tag) && c.Valid() && c.parent == this && c.Repr !! Repr
      modifies this
      ensures Valid() && children == old(children) + [c] && Repr == old(Repr) + c.Repr
      ensures model == Container(tag, attrs, old(model).kids + [c.model])
    {
      children := children + [c];
      Repr := Repr + c.Repr;
      model := Container(tag, attrs, model.kids + [c.model]);
      assert forall i :: 0 <= i < |children| - 1 ==> children[i] == old(children)[i];
    }

    /** `can_merge`. */
    function CanMergeWith(other: Element): (b: bool)
      ensures b <==> Textual(tag) && TagName(other.tag) in ["_plain", "say-as", "sub"]
    {
      CanMerge(tag, other.tag)
    }

    /** `_get_attr_in_path`: walk up from this element to the first one that has the attribute. */
    method GetAttrInPath(name: string) returns (r: Option<string>)
      requires Rooted()
      ensures r == AttrInPath(this, name)
    {
      var node: Element? := this;
      while node != null
        invariant node != null ==> node.Rooted()
        invariant AttrInPath(node, name) == AttrInPath(this, name)
        decreases if node == null then 0 else node.depth + 1
      {
        if name in node.attrs {
          return Some(node.attrs[name]);
        }
        node := node.parent;
      }
      return None;
    }

    /**
     * `merge`: the base class gives the receiver back; `_plain`, `say-as` and
     * `sub` refuse a container and otherwise merge as `Merged` says, `_plain`
     * in place and the other two into a new `_plain` under the same parent.
     */
    method Merge(other: Element) returns (r: Result<Element, string>)
      requires Valid() && other.Valid()
      modifies this
      ensures !Textual(tag) ==> r == Ok(this) && unchanged(this)
      ensures Textual(tag) && !IsLeafTag(other.tag) ==> r.Err? && unchanged(this)
      ensures Textual(tag) && IsLeafTag(other.tag) && tag == PlainText ==>
        r == Ok(this) && text == old(text) + old(other.text) && Valid() && Repr == old(Repr)
        && model == Merged(old(model), old(other.model))
      ensures Textual(tag) && IsLeafTag(other.tag) && tag != PlainText ==>
        r.Ok? && fresh(r.value) && unchanged(this) && r.value.Valid() && r.value.Repr == {r.value}
        && r.value.tag == PlainText && r.value.parent == parent && r.value.attrs == map[]
        && r.value.text == text + other.text && r.value.model == Merged(model, other.model)
    {
      if !Textual(tag) {
        return Ok(this);
      }
      if !IsLeafTag(other.tag) {
        return Err("Can not merge tag [" + TagName(tag) + "] with [" + TagName(other.tag) + "]");
      }
      if tag == PlainText {
        text := text + other.text;
        model := Leaf(tag, attrs, text);
        return Ok(this);
      }
      var e := new Element.InitLeaf(PlainText, parent, map[], text + other.text);
      return Ok(e);
    }

    /**
     * `normalize`: `break` empties its text, `sub` takes its `alias`, the
     * other leaves go through the normalizer of the `xml:lang` on their path
     * when there is one, and a container normalizes its children in order.
     */
    method Normalize(normalizers: map<string, Normalizer>)
      requires Valid()
      modifies Repr
      ensures Valid() && Repr == old(Repr) && children == old(children)
      ensures model == NormalizeTree(old(model), AttrInPath(parent, XmlLang), normalizers)
      decreases Repr, 3
    {
      if IsLeafTag(tag) {
        NormalizeText(normalizers);
      } else {
        NormalizeChildren(normalizers);
      }
    }

    /** A leaf: `break` empties its text, `sub` takes its `alias`, any other leaf goes through its language's normalizer. */
    method NormalizeText(normalizers: map<string, Normalizer>)
      requires Valid() && IsLeafTag(tag)
      modifies this
      ensures Valid() && Repr == old(Repr) && children == old(children)
      ensures model == NormalizeTree(old(model), AttrInPath(parent, XmlLang), normalizers)
    {
      if tag == Break {
        text := "";
      } else if tag == Sub {
        text := if "alias" in attrs then attrs["alias"] else text;
      } else {
        var lang := GetAttrInPath(XmlLang);
        if lang.Some? && lang.value in normalizers {
          text := normalizers[lang.value](text, attrs);
        }
      }
      model := Leaf(tag, attrs, text);
    }

    /** A container: its children normalize themselves in order. */
    method NormalizeChildren(normalizers: map<string, Normalizer>)
      requires Valid() && !IsLeafTag(tag)
      modifies Repr
      ensures Valid() && Repr == old(Repr) && children == old(children)
      ensures model == NormalizeTree(old(model), AttrInPath(parent, XmlLang), normalizers)
      decreases Repr, 2
    {
      ghost var lang := AttrInPath(this, XmlLang);
      ghost var m := model;
      assert lang == LangBelow(attrs, AttrInPath(parent, XmlLang));
      NormalizeKids(normalizers);
      NormalizeContainer(m, AttrInPath(parent, XmlLang), lang, normalizers);
      ghost var ns := NormalizeEach(m.kids, lang, normalizers);
      assert forall k :: 0 <= k < |children| ==> children[k].model == ns[k];
      SetKids(ns);
    }

    /** Records `ns` as the value of the children: with the children valid and disjoint, this element is valid again. */
    ghost method SetKids(ns: seq<Node>)
      requires this in Repr && Rooted() && !IsLeafTag(tag) && Kids(children)
      requires |ns| == |children| && AllWellFormed(ns)
      requires forall k :: 0 <= k < |children| ==> children[k].model == ns[k]
      modifies this
      ensures model == Container(tag, attrs, ns) && Valid()
      ensures Repr == old(Repr) && children == old(children) && text == old(text)
    {
      model := Container(tag, attrs, ns);
      KidsValid();
    }

    /** The loop over the children, leaving this element's own fields as they were. */
    method NormalizeKids(normalizers: map<string, Normalizer>)
      requires Valid() && !IsLeafTag(tag)
      modifies Repr - {this}
      ensures Kids(children) && Repr == old(Repr)
      ensures forall k :: 0 <= k < |children| ==>
        children[k].model == NormalizeTree(model.kids[k], AttrInPath(this, XmlLang), normalizers)
      decreases Repr, 1
    {
      ghost var lang := AttrInPath(this, XmlLang);
      ghost var ms := model.kids;
      ValidKids();
      var i := 0;
      while i < |children|
        invariant 0 <= i <= |children|
        invariant Kids(children)
        invariant forall k :: 0 <= k < i ==> children[k].model == NormalizeTree(ms[k], lang, normalizers)
        invariant forall k :: i <= k < |children| ==> children[k].model == ms[k]
      {
        NormalizeKid(i, normalizers);
        i := i + 1;
      }
    }

    /** One turn of that loop: child `i` normalizes itself under this element's language. */
    method NormalizeKid(i: nat, normalizers: map<string, Normalizer>)
      requires this in Repr && i < |children| && Kids(children)
      modifies Repr - {this}
      ensures Kids(children) && Repr == old(Repr)
      ensures children[i].model == NormalizeTree(old(children[i].model), AttrInPath(this, XmlLang), normalizers)
      ensures forall k :: 0 <= k < |children| && k != i ==> children[k].model == old(children[k].model)
      decreases children[i].Repr, 4
    {
      var c := children[i];
      KidAt(children, i);
      c.Normalize(normalizers);
    }

    /** The children `xs` are valid, disjoint subtrees inside this element's footprint, with this element as their parent. */
    ghost predicate Kids(xs: seq<Element>)
      reads this, Repr
    {
      (forall i :: 0 <= i < |xs| ==>
         xs[i] in Repr && xs[i].Repr <= Repr && this !in xs[i].Repr && xs[i].parent == this && xs[i].Valid())
      && (forall i, j :: 0 <= i < j < |xs| ==> xs[i].Repr !! xs[j].Repr)
    }

    /** `merge_children`. */
    method MergeChildren()
      requires Valid() && !IsLeafTag(tag)
      modifies Repr
      ensures Valid() && fresh(Repr - old(Repr))
      ensures model == MergeTree(old(model))
      decreases Repr, 2
    {
      MergeEachChild();
      MergeAdjacent();
    }

    /** The first loop of `merge_children`: every container child merges its own children. */
    method MergeEachChild()
      requires Valid() && !IsLeafTag(tag)
      modifies Repr
      ensures Valid() && fresh(Repr - old(Repr)) && children == old(children)
      ensures model == Container(tag, attrs, MergeEach(old(model).kids))
      decreases Repr, 1
    {
      ghost var ms := model.kids;
      ValidKids();
      var i := 0;
      while i < |children|
        invariant 0 <= i <= |children| && children == old(children) && model == old(model)
        invariant this in Repr && old(Repr) <= Repr && fresh(Repr - old(Repr))
        invariant Kids(children)
        invariant forall k :: 0 <= k < i ==> children[k].model == MergeTree(ms[k])
        invariant forall k :: i <= k < |children| ==> children[k].model == ms[k] && children[k].Repr <= old(Repr)
      {
        MergeKid(i);
        i := i + 1;
      }
      SetKids(MergeEach(ms));
    }

    /** One step of that loop: child `i`, when it is a container, merges its own children; the other children stay as they are. */
    method MergeKid(i: nat)
      requires this in Repr && i < |children| && Kids(children)
      modifies Repr
      ensures Kids(children) && this in Repr && old(Repr) <= Repr && fresh(Repr - old(Repr))
      ensures children == old(children) && model == old(model)
      ensures children[i].model == MergeTree(old(children[i].model))
      ensures forall k :: 0 <= k < |children| && k != i ==> children[k].model == old(children[k].model) && children[k].Repr == old(children[k].Repr)
      decreases children[i].Repr, 4
    {
      var c := children[i];
      KidAt(children, i);
      if !IsLeafTag(c.tag) {
        c.MergeChildren();
        Repr := Repr + c.Repr;
      }
    }

    /** The accumulator loop of `merge_children`: fuse each run of mergeable neighbours. */
    method MergeAdjacent()
      requires Valid() && !IsLeafTag(tag)
      modifies Repr
      ensures Valid() && fresh(Repr - old(Repr))
      ensures model == Container(tag, attrs, MergeList(old(model).kids))
    {
      if |children| == 0 {
        return;
      }
      var acc: seq<Element> := [];
      ghost var done: seq<Node> := [];
      var cur := children[0];
      var i := 1;
      ValidKids();
      assert acc + [cur] + children[1..] == children;
      while i < |children|
        invariant Scan(acc, cur, done, i) && children == old(children) && model == old(model)
        invariant old(Repr) <= Repr && fresh(Repr - old(Repr))
      {
        acc, cur, done := Step(acc, cur, done, i);
        i := i + 1;
      }
      Finish(acc, cur, done);
    }

    /** After the loop: `children = result`. */
    method Finish(acc: seq<Element>, cur: Element, ghost done: seq<Node>)
      requires Scan(acc, cur, done, |children|)
      modifies this
      ensures Valid() && Repr == old(Repr)
      ensures model == Container(tag, attrs, MergeList(old(model).kids))
    {
      ScanDone(acc, cur, done, |children|);
      children := acc + [cur];
      model := Container(tag, attrs, done + [cur.model]);
      KidsValid();
    }

    /**
     * The state of the accumulator loop before child `i`: `acc` holds the
     * merged children so far (their values `done`), `cur` the one being
     * grown, and the children from `i` on are untouched.
     */
    ghost predicate Scan(acc: seq<Element>, cur: Element, done: seq<Node>, i: int)
      reads this, Repr
    {
      1 <= i <= |children| && this in Repr && cur in Repr && Rooted() && !IsLeafTag(tag)
      && model.Container? && model.tag == tag && model.attrs == attrs
      && AllWellFormed(model.kids) && |model.kids| == |children|
      && Kids(acc + [cur] + children[i..]) && WellFormed(cur.model) && cur.model.tag == cur.tag
      && |acc| == |done| && (forall k :: 0 <= k < |acc| ==> acc[k] in Repr && acc[k].model == done[k])
      && (forall k :: i <= k < |children| ==> children[k] in Repr && children[k].model == model.kids[k])
      && MergeList(model.kids) == done + MergeRun(cur.model, model.kids[i..])
    }

    /** One turn of the accumulator loop, at child `i`. */
    method Step(acc: seq<Element>, cur: Element, ghost done: seq<Node>, i: int) returns (acc': seq<Element>, cur': Element, ghost done': seq<Node>)
      requires Scan(acc, cur, done, i) && i < |children|
      modifies this, cur
      ensures Scan(acc', cur', done', i + 1) && old(Repr) <= Repr && fresh(Repr - old(Repr))
      ensures children == old(children) && model == old(model)
    {
      var child := children[i];
      if cur.CanMergeWith(child) {
        acc', done' := acc, done;
        cur' := StepMerge(acc, cur, done, i);
      } else {
        ScanAdvance(acc, cur, done, i);
        acc', cur', done' := acc + [cur], child, done + [cur.model];
      }
    }

    /** The turn where `cur` takes in child `i`. */
    method StepMerge(acc: seq<Element>, cur: Element, ghost done: seq<Node>, i: int) returns (next: Element)
      requires Scan(acc, cur, done, i) && i < |children| && cur.CanMergeWith(children[i])
      modifies this, cur
      ensures Scan(acc, next, done, i + 1) && old(Repr) <= Repr && fresh(Repr - old(Repr))
      ensures children == old(children) && model == old(model)
    {
      KidsAt(acc, cur, children[i..]);
      MergeRunStep(cur.model, model.kids, i);
      assert children[i..][1..] == children[i + 1..];
      next := Absorb(acc, cur, children[i..]);
      assert forall k :: i + 1 <= k < |children| ==> children[k] == children[i..][k - i];
    }

    /** The turn where child `i` cannot merge into `cur`: `cur` is done and child `i` is grown next. */
    lemma ScanAdvance(acc: seq<Element>, cur: Element, done: seq<Node>, i: int)
      requires Scan(acc, cur, done, i) && i < |children| && !cur.CanMergeWith(children[i])
      ensures Scan(acc + [cur], children[i], done + [cur.model], i + 1)
    {
      var c := children[i];
      KidsAt(acc, cur, children[i..]);
      assert c.model == model.kids[i] && c.model.tag == c.tag && WellFormed(c.model);
      RunClosed(model.kids, done, cur.model, i);
      assert acc + [cur] + children[i..] == (acc + [cur]) + [c] + children[i + 1..];
      assert forall k :: 0 <= k < |acc + [cur]| ==> (acc + [cur])[k] in Repr && (acc + [cur])[k].model == (done + [cur.model])[k];
    }

    /** At the end of the loop the children are `acc` and `cur`, and their values are what `MergeList` gives. */
    lemma ScanDone(acc: seq<Element>, cur: Element, done: seq<Node>, i: int)
      requires Scan(acc, cur, done, i) && i == |children|
      ensures Kids(acc + [cur]) && MergeList(model.kids) == done + [cur.model]
      ensures forall k :: 0 <= k < |acc + [cur]| ==> (acc + [cur])[k].model == (done + [cur.model])[k]
    {
      assert acc + [cur] + children[i..] == acc + [cur];
    }

    /** One merge in that loop: `cur` takes in the next child, in place or as a new `_plain`. */
    method Absorb(acc: seq<Element>, cur: Element, rest: seq<Element>) returns (next: Element)
      requires this in Repr && |rest| > 0 && Kids(acc + [cur] + rest) && cur.CanMergeWith(rest[0])
      requires cur.Valid() && rest[0].Valid()
      modifies this, cur
      ensures Kids(acc + [next] + rest[1..]) && this in Repr && next in Repr && old(Repr) <= Repr && fresh(Repr - old(Repr))
      ensures children == old(children) && model == old(model)
      ensures next.model == Merged(old(cur.model), old(rest[0].model)) && next.tag == PlainText
      ensures forall k :: 0 <= k < |acc| ==> acc[k].model == old(acc[k].model)
      ensures forall k :: 0 <= k < |rest| ==> rest[k].model == old(rest[k].model)
    {
      KidsAt(acc, cur, rest);
      KidsDrop(acc, cur, rest);
      ghost var xs := acc + [cur] + rest[1..];
      assert xs[|acc|] == cur && cur.parent == this;
      label Pre:
      var m := cur.Merge(rest[0]);
      next := m.value;
      assert next.parent == this;
      ghost var ys := acc + [next] + rest[1..];
      assert forall k :: 0 <= k < |ys| && k != |acc| ==> ys[k] == xs[k];
      if next != cur {
        assert forall k :: 0 <= k < |xs| ==> next !in xs[k].Repr;
      }
      assert forall a, b :: 0 <= a < b < |xs| && a != |acc| && b != |acc| ==> xs[a].Repr !! xs[b].Repr;
      assert forall k :: 0 <= k < |xs| && k != |acc| ==> next.Repr !! xs[k].Repr;
      Repr := Repr + {next};
      KidsUpdate(xs, ys, |acc|);
    }

    /** `xs` with its `i`-th child replaced, each child still valid and the children still disjoint. */
    lemma KidsUpdate(xs: seq<Element>, ys: seq<Element>, i: nat)
      requires |ys| == |xs| && i < |xs| && forall k :: 0 <= k < |ys| && k != i ==> ys[k] == xs[k]
      requires forall k :: 0 <= k < |xs| && k != i ==>
        xs[k] in Repr && xs[k].Repr <= Repr && this !in xs[k].Repr && xs[k].parent == this && xs[k].Valid()
      requires forall a, b :: 0 <= a < b < |xs| && a != i && b != i ==> xs[a].Repr !! xs[b].Repr
      requires ys[i] in Repr && ys[i].Repr <= Repr && this !in ys[i].Repr && ys[i].parent == this && ys[i].Valid()
      requires forall k :: 0 <= k < |xs| && k != i ==> ys[i].Repr !! xs[k].Repr
      ensures Kids(ys)
    {
      forall a, b | 0 <= a < b < |ys| ensures ys[a].Repr !! ys[b].Repr {
        if a == i {
          assert ys[i].Repr !! xs[b].Repr;
        } else if b == i {
          assert ys[i].Repr !! xs[a].Repr;
        } else {
          assert xs[a].Repr !! xs[b].Repr;
        }
      }
    }

    lemma KidAt(xs: seq<Element>, i: nat)
      requires Kids(xs) && i < |xs|
      ensures xs[i] in Repr && xs[i].Valid() && this !in xs[i].Repr
      ensures forall k :: 0 <= k < |xs| && k != i ==> xs[k] != xs[i] && xs[k].Repr !! xs[i].Repr
    {
      forall k | 0 <= k < |xs| && k != i ensures xs[k] != xs[i] && xs[k].Repr !! xs[i].Repr {
        if k < i {
          assert xs[k].Repr !! xs[i].Repr;
        } else {
          assert xs[i].Repr !! xs[k].Repr;
        }
      }
    }

    lemma KidsValid()
      requires this in Repr && Rooted() && !IsLeafTag(tag) && model.Container? && model.tag == tag && model.attrs == attrs
      requires AllWellFormed(model.kids) && |model.kids| == |children| && Kids(children)
      requires forall k :: 0 <= k < |children| ==> children[k].model == model.kids[k]
      ensures Valid()
    {
    }

    lemma ValidKids()
      requires Valid() && !IsLeafTag(tag)
      ensures Kids(children)
    {
    }

    /** The element at the head of the remaining children, and the one before it, are valid and apart from the rest. */
    lemma KidsAt(acc: seq<Element>, cur: Element, rest: seq<Element>)
      requires Kids(acc + [cur] + rest) && |rest| > 0
      ensures cur in Repr && cur.Valid() && rest[0] in Repr && rest[0].Valid() && rest[0].parent == this
      ensures cur.Repr !! rest[0].Repr
      ensures forall k :: 0 <= k < |rest| ==> rest[k] != cur && cur !in rest[k].Repr
      ensures forall k :: 0 <= k < |acc| ==> acc[k] != cur && cur !in acc[k].Repr
    {
      var xs := acc + [cur] + rest;
      assert xs[|acc|] == cur && xs[|acc| + 1] == rest[0];
      forall k | 0 <= k < |rest| ensures rest[k] != cur && cur !in rest[k].Repr {
        assert xs[|acc| + 1 + k] == rest[k];
      }
      forall k | 0 <= k < |acc| ensures acc[k] != cur && cur !in acc[k].Repr {
        assert xs[k] == acc[k];
      }
    }

    /** Dropping the merged child keeps the rest valid and apart. */
    lemma KidsDrop(acc: seq<Element>, cur: Element, rest: seq<Element>)
      requires Kids(acc + [cur] + rest) && |rest| > 0
      ensures Kids(acc + [cur] + rest[1..])
    {
      var xs := acc + [cur] + rest;
      var ys := acc + [cur] + rest[1..];
      forall k | 0 <= k < |ys| ensures ys[k] == xs[if k <= |acc| then k else k + 1] {
      }
    }
  }

  /** `_get_attr_in_path` as a function of the parent chain. */
  function AttrInPath(node: Element?, name: string): Option<string>
    requires node != null ==> node.Rooted()
    decreases if node == null then 0 else node.depth + 1
  {
    if node == null then None
    else if name in node.attrs then Some(node.attrs[name])
    else AttrInPath(node.parent, name)
  }

  /** The element and its ancestors, nearest first. */
  function Ancestors(node: Element?): (r: seq<Element>)
    requires node != null ==> node.Rooted()
    ensures (node == null <==> r == []) && (node != null ==> r[0] == node)
    decreases if node == null then 0 else node.depth + 1
  {
    if node == null then [] else [node] + Ancestors(node.parent)
  }

  /**
   * `_get_attr_in_path` gives the value on the nearest element of the path
   * that has the attribute, and nothing when none of them has it.
   */
  lemma {:induction false} AttrInPathNearest(node: Element?, name: string) returns (i: int)
    requires node != null ==> node.Rooted()
    ensures var path := Ancestors(node);
      -1 <= i < |path|
      && (i == -1 <==> AttrInPath(node, name).None?)
      && (i == -1 ==> forall k :: 0 <= k < |path| ==> name !in path[k].attrs)
      && (i >= 0 ==> name in path[i].attrs && AttrInPath(node, name) == Some(path[i].attrs[name]))
      && (forall k :: 0 <= k < i ==> name !in path[k].attrs)
    decreases if node == null then 0 else node.depth + 1
  {
    if node == null {
      i := -1;
    } else if name in node.attrs {
      i := 0;
    } else {
      var path := Ancestors(node);
      var j := AttrInPathNearest(node.parent, name);
      assert path[1..] == Ancestors(node.parent);
      i := if j == -1 then -1 else j + 1;
      forall k | 0 <= k < |path| && (i == -1 || k < i) ensures name !in path[k].attrs {
        if k > 0 {
          assert path[k] == Ancestors(node.parent)[k - 1];
        }
      }
    }
  }
}

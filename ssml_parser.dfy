/**
 * The tree builder: it walks an already parsed XML element (tag, attributes
 * in document order, text, child elements, tail) and builds the SSML tree,
 * turning leading text and tails into `_plain` leaves and `{uri}local`
 * names into prefixed names through a stack of namespace frames.
 *
 * `Build` is the value the walk computes: the tree, or the error it raises, together
 * with the frame stack it leaves behind (a frame is pushed for every element
 * and popped only when a container finishes, so leaf frames stay). The
 * method `SsmlParser.ParseElement` builds the mutable tree and is proved to
 * agree with it.
 */
module SsmlParsing {
  import opened Wrappers
  import opened Strings
  import opened SsmlTree

  /** An XML element as the XML library hands it over; an absent text or tail is "". */
  datatype XmlElement = XmlElement(tag: string, attrib: seq<(string, string)>, text: string, children: seq<XmlElement>, tail: string)

  /** The three `ValueError`s the builder raises. */
  datatype ParseError = UnsupportedTag(name: string) | NamespaceNotFound(name: string) | MalformedName(name: string)

  /** A namespace frame: namespace URI to prefix. */
  type Frame = map<string, string>

  const XmlNamespace: string := "http://www.w3.org/XML/1998/namespace"

  /** The frame the parser starts with: the XML namespace is bound to `xml`. */
  const InitialFrame: Frame := map[XmlNamespace := "xml"]

  /** The classes `init` registers, in its order. */
  const AllTags: seq<Tag> := [Speak, Prosody, Voice, Lang, Break, PlainText, SayAs, Sub]

  /** `tags` after registering each of `ts` under its tag name. */
  function Register(m: map<string, Tag>, ts: seq<Tag>): map<string, Tag>
  {
    if ts == [] then m else Register(m, ts[..|ts| - 1])[TagName(ts[|ts| - 1]) := ts[|ts| - 1]]
  }

  /** Registering `ts` adds each of them under its own name and no other name; every other entry keeps its value. */
  lemma {:induction false} RegisterSpec(m: map<string, Tag>, ts: seq<Tag>)
    ensures forall t :: t in ts ==> TagName(t) in Register(m, ts) && Register(m, ts)[TagName(t)] == t
    ensures forall name :: name in Register(m, ts) <==> name in m || exists t :: t in ts && TagName(t) == name
    ensures forall name :: name in m && (forall t :: t in ts ==> TagName(t) != name) ==> Register(m, ts)[name] == m[name]
  {
    if ts != [] {
      var init := ts[..|ts| - 1];
      RegisterSpec(m, init);
      forall name | name in m && (forall t :: t in ts ==> TagName(t) != name)
        ensures Register(m, ts)[name] == m[name]
      {
        assert forall t :: t in init ==> t in ts;
        assert TagName(ts[|ts| - 1]) != name;
      }
      forall t | t in ts ensures TagName(t) in Register(m, ts) && Register(m, ts)[TagName(t)] == t {
        if t != ts[|ts| - 1] {
          assert t in init;
          TagNameInjective(t, ts[|ts| - 1]);
        }
      }
      forall name | name in Register(m, ts) && name !in m ensures exists t :: t in ts && TagName(t) == name {
        if name != TagName(ts[|ts| - 1]) {
          var t :| t in init && TagName(t) == name;
          assert t in ts;
        }
      }
      forall name | (exists t :: t in ts && TagName(t) == name) ensures name in Register(m, ts) {
        var t :| t in ts && TagName(t) == name;
        if t != ts[|ts| - 1] {
          assert t in init;
        }
      }
    }
  }

  /** After `init` every class is found under its own tag name, and the names added are exactly the eight tag names. */
  lemma Registered(m: map<string, Tag>)
    ensures forall t: Tag :: TagName(t) in Register(m, AllTags) && Register(m, AllTags)[TagName(t)] == t
    ensures forall name :: name in Register(m, AllTags) <==> name in m || name in TagNames
  {
    RegisterSpec(m, AllTags);
    forall t: Tag ensures t in AllTags {
      AllTagsListed(t);
    }
    forall name ensures (exists t :: t in AllTags && TagName(t) == name) <==> name in TagNames {
      TagNamed(name);
    }
  }

  const TagNames: seq<string> := ["speak", "prosody", "voice", "lang", "break", "_plain", "say-as", "sub"]

  lemma AllTagsListed(t: Tag)
    ensures t in AllTags
  {
  }

  lemma TagNamed(name: string)
    ensures (exists t :: t in AllTags && TagName(t) == name) <==> name in TagNames
  {
    if name in TagNames {
      var t := if name == "speak" then Speak else if name == "prosody" then Prosody
        else if name == "voice" then Voice else if name == "lang" then Lang
        else if name == "break" then Break else if name == "_plain" then PlainText
        else if name == "say-as" then SayAs else Sub;
      assert t in AllTags && TagName(t) == name;
    }
  }

  // ---------------------------------------------------------------------------
  // Names
  // ---------------------------------------------------------------------------

  /** The prefix bound to `uri` in the innermost frame that binds it. */
  function Resolve(uri: string, frames: seq<Frame>): Option<string>
  {
    if frames == [] then None
    else if uri in frames[|frames| - 1] then Some(frames[|frames| - 1][uri])
    else Resolve(uri, frames[..|frames| - 1])
  }

  /** The scan finds the last frame binding the URI, and nothing when no frame binds it. */
  lemma {:induction false} ResolveInnermost(uri: string, frames: seq<Frame>) returns (i: int)
    ensures -1 <= i < |frames|
    ensures i == -1 <==> Resolve(uri, frames).None?
    ensures i == -1 ==> forall k :: 0 <= k < |frames| ==> uri !in frames[k]
    ensures i >= 0 ==> uri in frames[i] && Resolve(uri, frames) == Some(frames[i][uri])
    ensures forall k :: i < k < |frames| ==> uri !in frames[k]
  {
    if frames == [] {
      i := -1;
    } else if uri in frames[|frames| - 1] {
      i := |frames| - 1;
    } else {
      i := ResolveInnermost(uri, frames[..|frames| - 1]);
    }
  }

  /**
   * `_get_prefixed_name`: a name with no `}` is returned as it is; otherwise
   * the text after the first character must split at `}` into a URI and a
   * local name, and the URI's innermost prefix gives `prefix:local`, or the
   * bare local name for the empty prefix.
   */
  function Prefixed(name: string, frames: seq<Frame>): Result<string, ParseError>
  {
    if !Contains(name, '}') then Ok(name)
    else
      var parts := Split(name[1..], "}");
      if |parts| != 2 then Err(MalformedName(name))
      else match Resolve(parts[0], frames)
        case None => Err(NamespaceNotFound(name))
        case Some(prefix) => Ok(if prefix != "" then prefix + ":" + parts[1] else parts[1])
  }

  /** A tag or attribute name as the builder sees it: resolved when it starts with `{`. */
  function NameOf(name: string, frames: seq<Frame>): Result<string, ParseError>
  {
    if "{" <= name then Prefixed(name, frames) else Ok(name)
  }

  /** `{uri}local` resolves through the innermost binding of `uri`, and fails when no frame binds it. */
  lemma PrefixedClark(uri: string, local: string, frames: seq<Frame>)
    requires !Contains(uri, '}') && !Contains(local, '}')
    ensures var name := "{" + uri + "}" + local;
      Prefixed(name, frames) == match Resolve(uri, frames)
        case None => Err(NamespaceNotFound(name))
        case Some(prefix) => Ok(if prefix != "" then prefix + ":" + local else local)
  {
    var name := "{" + uri + "}" + local;
    assert name[|uri| + 1] == '}';
    assert name[1..] == Join([uri, local], "}");
    SplitJoin([uri, local], "}", 0);
  }

  /** A name without `}` is left alone. */
  lemma PrefixedPlain(name: string, frames: seq<Frame>)
    requires !Contains(name, '}')
    ensures Prefixed(name, frames) == Ok(name)
  {
  }

  /** With the initial frame at the bottom and no frame above rebinding it, `{XML namespace}lang` becomes `xml:lang`. */
  lemma XmlLangPrebound(frames: seq<Frame>)
    requires |frames| > 0 && XmlNamespace in frames[0] && frames[0][XmlNamespace] == "xml"
    requires forall k :: 0 < k < |frames| ==> XmlNamespace !in frames[k]
    ensures Prefixed("{" + XmlNamespace + "}lang", frames) == Ok(XmlLang)
  {
    var i := ResolveInnermost(XmlNamespace, frames);
    assert i == 0;
    assert "{" + XmlNamespace + "}lang" == "{" + XmlNamespace + "}" + "lang";
    PrefixedClark(XmlNamespace, "lang", frames);
    assert "xml" + ":" + "lang" == XmlLang;
  }

  /** A URI bound to the empty prefix, as a default `xmlns` on `<speak>` is, yields bare local names. */
  lemma DefaultNamespaceBare(uri: string, local: string, frames: seq<Frame>)
    requires !Contains(uri, '}') && !Contains(local, '}') && Resolve(uri, frames) == Some("")
    ensures Prefixed("{" + uri + "}" + local, frames) == Ok(local)
  {
    PrefixedClark(uri, local, frames);
  }

  /** A name that does not split into exactly a URI and a local name is refused. */
  lemma PrefixedMalformed(uri: string, local: string, more: string, frames: seq<Frame>)
    requires !Contains(uri, '}') && !Contains(local, '}') && !Contains(more, '}')
    ensures Prefixed("{" + uri + "}" + local + "}" + more, frames).Err?
  {
    var name := "{" + uri + "}" + local + "}" + more;
    assert name[|uri| + 1] == '}';
    assert [uri, local, more][1..] == [local, more] && [local, more][1..] == [more];
    assert Join([more], "}") == more;
    assert Join([local, more], "}") == local + "}" + Join([more], "}");
    assert Join([uri, local, more], "}") == uri + "}" + Join([local, more], "}");
    assert name[1..] == Join([uri, local, more], "}");
    SplitJoin([uri, local, more], "}", 0);
  }

  // ---------------------------------------------------------------------------
  // Frames and attributes of one element
  // ---------------------------------------------------------------------------

  lemma XmlnsSplit(attr: string)
    requires "xmlns:" <= attr
    ensures |Split(attr, ":")| >= 2
  {
    var rest := attr[6..];
    assert attr == "xmlns" + ":" + rest;
    SplitFromWord("xmlns", ":", 0, rest, "");
  }

  /** The frame an element pushes: each `xmlns:p="uri"` attribute binds `uri` to `p`, later ones winning. */
  function FrameOf(attrib: seq<(string, string)>): Frame
  {
    if attrib == [] then map[]
    else
      var f := FrameOf(attrib[..|attrib| - 1]);
      var (attr, value) := attrib[|attrib| - 1];
      if "xmlns:" <= attr then XmlnsSplit(attr); f[value := Split(attr, ":")[1]] else f
  }

  /** The attributes of the new element: names resolved, later ones winning; the first name that fails stops the loop. */
  function AttrsOf(attrib: seq<(string, string)>, frames: seq<Frame>): Result<Attrs, ParseError>
  {
    if attrib == [] then Ok(map[])
    else match AttrsOf(attrib[..|attrib| - 1], frames)
      case Err(e) => Err(e)
      case Ok(m) =>
        var (attr, value) := attrib[|attrib| - 1];
        match NameOf(attr, frames)
        case Err(e) => Err(e)
        case Ok(name) => Ok(m[name := value])
  }

  /** Plain attribute names pass through: with no name starting with `{`, the attributes are the pairs themselves. */
  lemma {:induction false} AttrsOfPlain(attrib: seq<(string, string)>, frames: seq<Frame>)
    requires forall i :: 0 <= i < |attrib| ==> !("{" <= attrib[i].0)
    ensures AttrsOf(attrib, frames).Ok?
    ensures forall i :: 0 <= i < |attrib| ==> attrib[i].0 in AttrsOf(attrib, frames).value
    ensures forall name :: name in AttrsOf(attrib, frames).value ==> exists i :: 0 <= i < |attrib| && attrib[i].0 == name
  {
    if attrib != [] {
      var init := attrib[..|attrib| - 1];
      AttrsOfPlain(init, frames);
      forall i | 0 <= i < |init| ensures init[i] == attrib[i] {
      }
    }
  }

  // ---------------------------------------------------------------------------
  // The walk
  // ---------------------------------------------------------------------------

  /** What a walk gives: the value built or the error raised, and the frame stack left behind. */
  datatype Built<T> = Built(result: Result<T, ParseError>, frames: seq<Frame>)

  /** The `_plain` leaf for a leading text or a tail: none when it is empty. */
  function TextLeaf(text: string): seq<Node>
  {
    if text != "" then [Leaf(PlainText, map[], text)] else []
  }

  /** `_parse_element` on `x` with frame stack `frames`. */
  function Build(x: XmlElement, frames: seq<Frame>, tags: map<string, Tag>): (b: Built<Node>)
    ensures |b.frames| >= |frames| && b.frames[..|frames|] == frames
    decreases x, 1
  {
    var fs := frames + [FrameOf(x.attrib)];
    match NameOf(x.tag, fs)
    case Err(e) => Built(Err(e), fs)
    case Ok(name) =>
      if name !in tags then Built(Err(UnsupportedTag(name)), fs)
      else match AttrsOf(x.attrib, fs)
        case Err(e) => Built(Err(e), fs)
        case Ok(attrs) =>
          var tag := tags[name];
          if IsLeafTag(tag) then Built(Ok(Leaf(tag, attrs, x.text)), fs)
          else
            var kids := BuildKids(x.children, fs, tags);
            match kids.result
            case Err(e) => Built(Err(e), kids.frames)
            case Ok(ks) => Built(Ok(Container(tag, attrs, TextLeaf(x.text) + ks)), kids.frames[..|kids.frames| - 1])
  }

  /** The child loop of `_parse_element`: each child's subtree, then its tail. */
  function BuildKids(xs: seq<XmlElement>, frames: seq<Frame>, tags: map<string, Tag>): (b: Built<seq<Node>>)
    ensures |b.frames| >= |frames| && b.frames[..|frames|] == frames
    decreases xs, 0
  {
    if xs == [] then Built(Ok([]), frames)
    else
      var c := Build(xs[0], frames, tags);
      match c.result
      case Err(e) => Built(Err(e), c.frames)
      case Ok(n) => Prepend([n] + TextLeaf(xs[0].tail), BuildKids(xs[1..], c.frames, tags))
  }

  function Prepend(ns: seq<Node>, b: Built<seq<Node>>): Built<seq<Node>>
  {
    match b.result
    case Err(_) => b
    case Ok(ks) => Built(Ok(ns + ks), b.frames)
  }

  /** The tag name the walk resolves for `x`. */
  function TagOf(x: XmlElement, frames: seq<Frame>): Result<string, ParseError>
  {
    NameOf(x.tag, frames + [FrameOf(x.attrib)])
  }

  /** A tag that is not registered raises `Unsupported SSML tag`. */
  lemma BuildUnsupported(x: XmlElement, frames: seq<Frame>, tags: map<string, Tag>)
    requires TagOf(x, frames).Ok? && TagOf(x, frames).value !in tags
    ensures Build(x, frames, tags).result == Err(UnsupportedTag(TagOf(x, frames).value))
  {
  }

  /** The eight SSML tags written plainly are all registered, and no other plain name is. */
  lemma PlainTagSupported(x: XmlElement, frames: seq<Frame>)
    requires !("{" <= x.tag)
    ensures TagOf(x, frames) == Ok(x.tag)
    ensures x.tag in Register(map[], AllTags) <==> x.tag in TagNames
  {
    Registered(map[]);
  }

  /** A leaf class is built from its own text alone: its XML children and their tails are never visited. */
  lemma BuildLeafIgnoresChildren(x: XmlElement, others: seq<XmlElement>, frames: seq<Frame>, tags: map<string, Tag>)
    requires TagOf(x, frames).Ok? && TagOf(x, frames).value in tags && IsLeafTag(tags[TagOf(x, frames).value])
    ensures Build(x.(children := others), frames, tags) == Build(x, frames, tags)
    ensures Build(x, frames, tags).result.Ok? ==> Build(x, frames, tags).result.value.text == x.text
  {
  }

  /** A leaf keeps the frame it pushed: the walk leaves one more frame on the stack. */
  lemma BuildLeafKeepsFrame(x: XmlElement, frames: seq<Frame>, tags: map<string, Tag>)
    requires TagOf(x, frames).Ok? && TagOf(x, frames).value in tags && IsLeafTag(tags[TagOf(x, frames).value])
    ensures Build(x, frames, tags).frames == frames + [FrameOf(x.attrib)]
  {
  }

  /**
   * A container with leaf children pops one of their frames, not its own: after
   * a container with a single leaf child the container's own frame is still
   * on the stack.
   */
  lemma ContainerFrameStays(x: XmlElement, frames: seq<Frame>, tags: map<string, Tag>)
    requires TagOf(x, frames).Ok? && TagOf(x, frames).value in tags && !IsLeafTag(tags[TagOf(x, frames).value])
    requires AttrsOf(x.attrib, frames + [FrameOf(x.attrib)]).Ok?
    requires |x.children| == 1
    requires var fs := frames + [FrameOf(x.attrib)];
      TagOf(x.children[0], fs).Ok? && TagOf(x.children[0], fs).value in tags && IsLeafTag(tags[TagOf(x.children[0], fs).value])
      && AttrsOf(x.children[0].attrib, fs + [FrameOf(x.children[0].attrib)]).Ok?
    ensures Build(x, frames, tags).result.Ok?
    ensures Build(x, frames, tags).frames == frames + [FrameOf(x.attrib)]
  {
    var fs := frames + [FrameOf(x.attrib)];
    var c := Build(x.children[0], fs, tags);
    assert c.frames == fs + [FrameOf(x.children[0].attrib)];
    assert x.children[1..] == [];
    assert BuildKids(x.children[1..], c.frames, tags) == Built(Ok([]), c.frames);
    var kids := BuildKids(x.children, fs, tags);
    assert kids.frames == c.frames;
    assert kids.frames[..|kids.frames| - 1] == fs;
  }

  /** The number of children of a container built by the child loop: each subtree, one more per non-empty tail. */
  function KidCount(xs: seq<XmlElement>): nat
  {
    if xs == [] then 0 else 1 + |TextLeaf(xs[0].tail)| + KidCount(xs[1..])
  }

  /** The child loop makes one node per subtree and one per non-empty tail, in document order. */
  lemma {:induction false} BuildKidsCount(xs: seq<XmlElement>, frames: seq<Frame>, tags: map<string, Tag>)
    requires BuildKids(xs, frames, tags).result.Ok?
    ensures |BuildKids(xs, frames, tags).result.value| == KidCount(xs)
    ensures forall i :: 0 <= i < |xs| ==> Build(xs[i], KidFrames(xs, frames, tags, i), tags).result.Ok?
  {
    if xs != [] {
      var c := Build(xs[0], frames, tags);
      BuildKidsCount(xs[1..], c.frames, tags);
      forall i | 0 <= i < |xs| ensures Build(xs[i], KidFrames(xs, frames, tags, i), tags).result.Ok? {
        if i > 0 {
          assert xs[1..][i - 1] == xs[i];
        }
      }
    }
  }

  /** The frame stack child `i` of the loop is walked with. */
  function KidFrames(xs: seq<XmlElement>, frames: seq<Frame>, tags: map<string, Tag>, i: nat): seq<Frame>
    requires i < |xs|
    decreases i
  {
    if i == 0 then frames else KidFrames(xs[1..], Build(xs[0], frames, tags).frames, tags, i - 1)
  }

  /** A container's children: `_plain` for a non-empty leading text, then the loop's nodes. */
  lemma BuildContainer(x: XmlElement, frames: seq<Frame>, tags: map<string, Tag>)
    requires Build(x, frames, tags).result.Ok? && Build(x, frames, tags).result.value.Container?
    ensures var fs := frames + [FrameOf(x.attrib)];
      BuildKids(x.children, fs, tags).result.Ok?
      && Build(x, frames, tags).result.value.kids == TextLeaf(x.text) + BuildKids(x.children, fs, tags).result.value
      && |Build(x, frames, tags).result.value.kids| == |TextLeaf(x.text)| + KidCount(x.children)
  {
    BuildKidsCount(x.children, frames + [FrameOf(x.attrib)], tags);
  }

  /** Every node the walk builds is well formed. */
  lemma {:induction false} BuildWellFormed(x: XmlElement, frames: seq<Frame>, tags: map<string, Tag>)
    requires Build(x, frames, tags).result.Ok?
    ensures WellFormed(Build(x, frames, tags).result.value)
    decreases x, 1
  {
    var fs := frames + [FrameOf(x.attrib)];
    var kids := BuildKids(x.children, fs, tags);
    if !IsLeafTag(tags[NameOf(x.tag, fs).value]) {
      BuildKidsWellFormed(x.children, fs, tags);
    }
  }

  lemma {:induction false} BuildKidsWellFormed(xs: seq<XmlElement>, frames: seq<Frame>, tags: map<string, Tag>)
    requires BuildKids(xs, frames, tags).result.Ok?
    ensures AllWellFormed(BuildKids(xs, frames, tags).result.value)
    decreases xs, 0
  {
    if xs != [] {
      var c := Build(xs[0], frames, tags);
      BuildWellFormed(xs[0], frames, tags);
      BuildKidsWellFormed(xs[1..], c.frames, tags);
    }
  }

  /** One turn of the child loop, seen from position `i`. */
  lemma BuildKidsStep(xs: seq<XmlElement>, i: nat, frames: seq<Frame>, tags: map<string, Tag>)
    requires i < |xs|
    ensures var c := Build(xs[i], frames, tags);
      BuildKids(xs[i..], frames, tags) ==
        if c.result.Err? then Built(Err(c.result.error), c.frames)
        else Prepend([c.result.value] + TextLeaf(xs[i].tail), BuildKids(xs[i + 1..], c.frames, tags))
  {
    assert xs[i..][0] == xs[i] && xs[i..][1..] == xs[i + 1..];
  }

  lemma PrependPrepend(a: seq<Node>, b: seq<Node>, k: Built<seq<Node>>)
    ensures Prepend(a, Prepend(b, k)) == Prepend(a + b, k)
  {
    if k.result.Ok? {
      assert a + (b + k.result.value) == (a + b) + k.result.value;
    }
  }

  // ---------------------------------------------------------------------------
  // The parser object
  // ---------------------------------------------------------------------------

  class SsmlParser {
    var tags: map<string, Tag>
    var namespaces: seq<Frame>

    /** The frame stack is never empty, so `parse` can always seed its bottom frame. */
    ghost predicate Valid()
      reads this
    {
      |namespaces| > 0
    }

    /** `__init__`: no tags yet, and the XML namespace bound to `xml`. */
    constructor ()
      ensures Valid() && tags == map[] && namespaces == [InitialFrame]
    {
      tags := map[];
      namespaces := [InitialFrame];
    }

    /** `init`: register every element class under its tag name. */
    method Init()
      modifies this
      ensures tags == Register(old(tags), AllTags) && namespaces == old(namespaces)
    {
      for i := 0 to |AllTags|
        invariant tags == Register(old(tags), AllTags[..i]) && namespaces == old(namespaces)
      {
        assert AllTags[..i + 1][..i] == AllTags[..i];
        tags := tags[TagName(AllTags[i]) := AllTags[i]];
      }
      assert AllTags[..|AllTags|] == AllTags;
    }

    /**
     * `parse` once the XML library has parsed the document: a default
     * `xmlns` found on `<speak>` binds that URI to the empty prefix in the
     * bottom frame, then the root element is walked with no parent.
     */
    method Parse(root: XmlElement, xmlns: Option<string>) returns (r: Result<Element, ParseError>)
      requires Valid()
      modifies this
      ensures Valid() && tags == old(tags)
      ensures var frames := if xmlns.Some? then old(namespaces)[0 := old(namespaces)[0][xmlns.value := ""]] else old(namespaces);
        Agrees(r, null, Build(root, frames, tags)) && namespaces == Build(root, frames, tags).frames
      ensures r.Ok? ==> r.value.Valid() && fresh(r.value.Repr)
    {
      if xmlns.Some? {
        namespaces := namespaces[0 := namespaces[0][xmlns.value := ""]];
      }
      r := ParseElement(null, root);
    }

    /** `_get_prefixed_name`: the frames are scanned from the innermost out. */
    method PrefixedName(name: string) returns (r: Result<string, ParseError>)
      ensures r == Prefixed(name, namespaces)
    {
      if !Contains(name, '}') {
        return Ok(name);
      }
      var parts := Split(name[1..], "}");
      if |parts| != 2 {
        return Err(MalformedName(name));
      }
      var i := |namespaces|;
      assert namespaces[..i] == namespaces;
      while i > 0
        invariant 0 <= i <= |namespaces|
        invariant Resolve(parts[0], namespaces) == Resolve(parts[0], namespaces[..i])
      {
        var ns := namespaces[i - 1];
        assert namespaces[..i][..i - 1] == namespaces[..i - 1];
        if parts[0] in ns {
          var prefix := ns[parts[0]];
          return Ok(if prefix != "" then prefix + ":" + parts[1] else parts[1]);
        }
        i := i - 1;
      }
      return Err(NamespaceNotFound(name));
    }

    /** The loop over `xmlns:` attributes that fills an element's frame. */
    method FrameOfAttrib(attrib: seq<(string, string)>) returns (f: Frame)
      ensures f == FrameOf(attrib)
    {
      f := map[];
      for i := 0 to |attrib|
        invariant f == FrameOf(attrib[..i])
      {
        assert attrib[..i + 1][..i] == attrib[..i];
        var (attr, value) := attrib[i];
        if "xmlns:" <= attr {
          XmlnsSplit(attr);
          f := f[value := Split(attr, ":")[1]];
        }
      }
      assert attrib[..|attrib|] == attrib;
    }

    /** The attribute loop: each name resolved when it starts with `{`. */
    method AttributesOf(attrib: seq<(string, string)>) returns (r: Result<Attrs, ParseError>)
      ensures r == AttrsOf(attrib, namespaces)
    {
      var attrs: Attrs := map[];
      for i := 0 to |attrib|
        invariant AttrsOf(attrib[..i], namespaces) == Ok(attrs)
      {
        assert attrib[..i + 1][..i] == attrib[..i];
        var (attr, value) := attrib[i];
        var name := attr;
        if "{" <= attr {
          var p := PrefixedName(attr);
          if p.Err? {
            AttrsOfErr(attrib, i + 1, namespaces);
            return Err(p.error);
          }
          name := p.value;
        }
        attrs := attrs[name := value];
      }
      assert attrib[..|attrib|] == attrib;
      return Ok(attrs);
    }

    /**
     * `_parse_element`: push the element's frame, resolve and look up its
     * tag, collect its attributes, then build a leaf from its text or a
     * container from its leading text, children and tails, popping the top
     * frame when a container is done.
     */
    method ParseElement(parent: Element?, x: XmlElement) returns (r: Result<Element, ParseError>)
      requires parent != null ==> parent.Rooted()
      modifies this
      ensures tags == old(tags)
      ensures Agrees(r, parent, Build(x, old(namespaces), tags)) && namespaces == Build(x, old(namespaces), tags).frames
      ensures r.Ok? ==> r.value.Valid() && fresh(r.value.Repr)
      decreases x, 2
    {
      var curNs := FrameOfAttrib(x.attrib);
      namespaces := namespaces + [curNs];
      var name := x.tag;
      if "{" <= name {
        var p := PrefixedName(name);
        if p.Err? {
          return Err(p.error);
        }
        name := p.value;
      }
      if name !in tags {
        return Err(UnsupportedTag(name));
      }
      var attrs := AttributesOf(x.attrib);
      if attrs.Err? {
        return Err(attrs.error);
      }
      var tag := tags[name];
      if IsLeafTag(tag) {
        var leaf := new Element.InitLeaf(tag, parent, attrs.value, x.text);
        return Ok(leaf);
      }
      r := ParseContainer(parent, x, tag, attrs.value);
    }

    /** The container half of `_parse_element`, after its frame is pushed: leading text, children and tails, then the pop. */
    method ParseContainer(parent: Element?, x: XmlElement, tag: Tag, attrs: Attrs) returns (r: Result<Element, ParseError>)
      requires parent != null ==> parent.Rooted()
      requires !IsLeafTag(tag) && |namespaces| > 0
      modifies this
      ensures tags == old(tags)
      ensures var kids := BuildKids(x.children, old(namespaces), tags);
        (r.Ok? <==> kids.result.Ok?) && (r.Err? ==> r.error == kids.result.error && namespaces == kids.frames)
      ensures var kids := BuildKids(x.children, old(namespaces), tags);
        r.Ok? ==> r.value.model == Container(tag, attrs, TextLeaf(x.text) + kids.result.value) && namespaces == kids.frames[..|kids.frames| - 1]
      ensures r.Ok? ==> r.value.Valid() && fresh(r.value.Repr) && r.value.parent == parent
      decreases x, 1
    {
      var e := StartContainer(parent, tag, attrs, x.text);
      var err := ParseChildren(e, x.children);
      if err.Some? {
        return Err(err.value);
      }
      namespaces := namespaces[..|namespaces| - 1];
      return Ok(e);
    }

    /** A new container under `parent`, with a `_plain` first child when the leading text is not empty. */
    method StartContainer(parent: Element?, tag: Tag, attrs: Attrs, text: string) returns (e: Element)
      requires parent != null ==> parent.Rooted()
      requires !IsLeafTag(tag)
      ensures e.Valid() && fresh(e.Repr) && e.parent == parent && e.tag == tag && e.attrs == attrs
      ensures e.model == Container(tag, attrs, TextLeaf(text))
    {
      e := new Element.InitContainer(tag, parent, attrs);
      if text != "" {
        var t := new Element.InitLeaf(PlainText, e, map[], text);
        e.AppendChild(t);
      }
    }

    /** The child loop of `_parse_element`. */
    method ParseChildren(e: Element, xs: seq<XmlElement>) returns (err: Option<ParseError>)
      requires e.Valid() && !IsLeafTag(e.tag) && this !in e.Repr
      modifies this, e
      ensures tags == old(tags)
      ensures var b := BuildKids(xs, old(namespaces), tags);
        namespaces == b.frames && (err.Some? <==> b.result.Err?) && (err.Some? ==> err.value == b.result.error)
      ensures err.None? ==> e.Valid() && fresh(e.Repr - old(e.Repr)) && this !in e.Repr
      ensures err.None? ==> e.model == Container(e.tag, e.attrs, old(e.model).kids + BuildKids(xs, old(namespaces), tags).result.value)
      decreases xs, 0
    {
      err := None;
      ghost var fs0 := namespaces;
      ghost var built: seq<Node> := [];
      ghost var kids0 := e.model.kids;
      assert xs[0..] == xs;
      assert kids0 + built == kids0;
      if BuildKids(xs, fs0, tags).result.Ok? {
        assert built + BuildKids(xs, fs0, tags).result.value == BuildKids(xs, fs0, tags).result.value;
      }
      for i := 0 to |xs|
        invariant tags == old(tags)
        invariant BuildKids(xs, fs0, tags) == Prepend(built, BuildKids(xs[i..], namespaces, tags))
        invariant e.Valid() && fresh(e.Repr - old(e.Repr)) && this !in e.Repr
        invariant e.model == Container(e.tag, e.attrs, kids0 + built)
      {
        BuildKidsStep(xs, i, namespaces, tags);
        var stepErr, step := ParseChild(e, xs[i]);
        if stepErr.Some? {
          return stepErr;
        }
        PrependPrepend(built, step, BuildKids(xs[i + 1..], namespaces, tags));
        built := built + step;
      }
      assert xs[|xs|..] == [];
    }

    /** One turn of the child loop: the subtree of `x` under `e`, then a `_plain` for its non-empty tail. */
    method ParseChild(e: Element, x: XmlElement) returns (err: Option<ParseError>, ghost step: seq<Node>)
      requires e.Valid() && !IsLeafTag(e.tag) && this !in e.Repr
      modifies this, e
      ensures tags == old(tags)
      ensures var c := Build(x, old(namespaces), tags);
        namespaces == c.frames && (err.Some? <==> c.result.Err?) && (err.Some? ==> err.value == c.result.error)
      ensures err.None? ==> step == [Build(x, old(namespaces), tags).result.value] + TextLeaf(x.tail)
      ensures err.None? ==> e.Valid() && fresh(e.Repr - old(e.Repr)) && this !in e.Repr
      ensures err.None? ==> e.model == Container(e.tag, e.attrs, old(e.model).kids + step)
      decreases x, 3
    {
      step := [];
      var c := ParseElement(e, x);
      if c.Err? {
        return Some(c.error), step;
      }
      e.AppendChild(c.value);
      step := [c.value.model];
      if x.tail != "" {
        var t := new Element.InitLeaf(PlainText, e, map[], x.tail);
        e.AppendChild(t);
        step := step + [t.model];
      }
      return None, step;
    }
  }

  /** The method's result agrees with the walk: the same error, or a tree under `parent` whose value is the one built. */
  ghost predicate Agrees(r: Result<Element, ParseError>, parent: Element?, b: Built<Node>)
    reads if r.Ok? then {r.value} else {}
  {
    match r
    case Err(e) => b.result == Err(e)
    case Ok(el) => b.result.Ok? && el.parent == parent && el.model == b.result.value
  }

  /** Once an attribute name fails, so does every longer prefix of the attribute loop. */
  lemma {:induction false} AttrsOfErr(attrib: seq<(string, string)>, i: nat, frames: seq<Frame>)
    requires 0 < i <= |attrib| && AttrsOf(attrib[..i], frames).Err?
    ensures AttrsOf(attrib, frames) == AttrsOf(attrib[..i], frames)
    decreases |attrib| - i
  {
    if i < |attrib| {
      assert attrib[..i + 1][..i] == attrib[..i];
      AttrsOfErr(attrib, i + 1, frames);
    } else {
      assert attrib[..i] == attrib;
    }
  }
}

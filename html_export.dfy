/**
 * The static-markup exporter of the page builder (`generateHTML` with its inner
 * `renderComponent`, and `exportPage`).
 *
 * The React rendering of a single block (`componentToHTML`, which calls
 * `renderToString`) is foreign code: it is the parameter `toHtml`, a total
 * function of the block's payload and id. Everything the exporter itself decides
 * (which wrapper a node gets, which nodes are visited and in which order) is
 * modelled exactly.
 */
module HtmlExport {
  /**
   * A placed node (`ComponentType`): an id, an opaque payload `P` (a React node)
   * and an optional list of nested nodes. Only sections read their children.
   */
  datatype Component<P> = Component(id: string, component: P, children: Children<P>)

  /** The optional `children?: ComponentType[]` field: absent, or a list in placement order. */
  datatype Children<P> = Absent | Present(nodes: seq<Component<P>>)

  /** The nested nodes, with an absent list read as the empty one. */
  function Kids<P>(c: Component<P>): seq<Component<P>> {
    match c.children
    case Absent => []
    case Present(cs) => cs
  }

  /** `id.startsWith("section")`: the section test is a prefix test. */
  predicate IsSection(id: string) {
    "section" <= id
  }

  /** Inline style of the wrapper a section is exported as. */
  const SectionStyle: string := "display: flex; flex-direction: column; padding: 20px; border: 1px dashed #ccc;"

  /** Everything the section template emits before its children, whitespace included. */
  function SectionOpen(id: string): string {
    "\n        <div id=\"" + id + "\" style=\"" + SectionStyle + "\">\n          "
  }

  /** Everything the section template emits after its children. */
  const SectionClose: string := "\n        </div>\n      "

  /** The element a non-section node is wrapped in: `header`, `footer`, and `div` for `banner` and every other id. */
  function LeafTag(id: string): (tag: string)
    ensures tag == "header" <==> id == "header"
    ensures tag == "footer" <==> id == "footer"
    ensures tag == "div" <==> id != "header" && id != "footer"
  {
    if id == "header" then "header"
    else if id == "footer" then "footer"
    else "div"
  }

  /** `<tag>content</tag>`. */
  function Element(tag: string, content: string): string {
    "<" + tag + ">" + content + "</" + tag + ">"
  }

  /**
   * `renderComponent`: the markup fragment of one node. The content is computed
   * for every node, sections included, but a section emits only its wrapper
   * around the in-order concatenation of its children's fragments (`?.map(...).join("") || ""`,
   * which is the empty string both for an absent and for an empty list).
   */
  function Render<P>(toHtml: (P, string) -> string, c: Component<P>): (r: string)
    ensures |r| > 0
    ensures IsSection(c.id) ==> SectionOpen(c.id) <= r
    decreases c
  {
    var content := toHtml(c.component, c.id);
    if IsSection(c.id) then
      var body := match c.children
        case Absent => ""
        case Present(cs) => RenderAll(toHtml, cs);
      SectionOpen(c.id) + body + SectionClose
    else if c.id == "header" then
      "<header>" + content + "</header>"
    else if c.id == "footer" then
      "<footer>" + content + "</footer>"
    else if c.id == "banner" then
      "<div>" + content + "</div>"
    else
      "<div>" + content + "</div>"
  }

  /** `cs.map(renderComponent).join("")`: the fragments of a node list, in list order. */
  function RenderAll<P>(toHtml: (P, string) -> string, cs: seq<Component<P>>): (r: string)
    ensures r == "" <==> cs == []
    ensures |r| >= |cs|
    decreases cs
  {
    if cs == [] then "" else Render(toHtml, cs[0]) + RenderAll(toHtml, cs[1..])
  }

  /** The work areas: container name to the ordered nodes placed in it. */
  type Forest<P> = map<string, seq<Component<P>>>

  /**
   * `keys` is an `Object.keys(m)` of `m`: every key of `m` exactly once. The
   * order itself is the JavaScript engine's and is a parameter of the model.
   */
  predicate EnumeratesKeys<P>(keys: seq<string>, m: Forest<P>) {
    && (forall i, j :: 0 <= i < j < |keys| ==> keys[i] != keys[j])
    && (forall k :: k in keys ==> k in m)
    && (forall k :: k in m ==> k in keys)
  }

  /**
   * The exported markup: the fragments of the containers named by `keys`, one
   * container after the other.
   */
  function Html<P>(toHtml: (P, string) -> string, m: Forest<P>, keys: seq<string>): (r: string)
    requires forall k :: k in keys ==> k in m
  {
    if keys == [] then ""
    else Html(toHtml, m, keys[..|keys| - 1]) + RenderAll(toHtml, m[keys[|keys| - 1]])
  }

  /**
   * `generateHTML`: an accumulator extended with each container's fragments, for
   * the keys in `Object.keys` order. The `console.log` of the result is not modelled.
   */
  method GenerateHtml<P>(toHtml: (P, string) -> string, components: Forest<P>, keys: seq<string>)
      returns (html: string)
    requires EnumeratesKeys(keys, components)
    ensures html == Html(toHtml, components, keys)
    ensures html == "" <==> forall k :: k in components ==> |components[k]| == 0
  {
    html := "";
    for i := 0 to |keys|
      invariant html == Html(toHtml, components, keys[..i])
    {
      assert keys[..i + 1][..i] == keys[..i];
      html := html + RenderAll(toHtml, components[keys[i]]);
    }
    assert keys[..|keys|] == keys;
    ExportEmptyIffContainersEmpty(toHtml, components, keys);
  }

  /** What `exportPage` hands to the file-delivery collaborator. */
  datatype Download = Download(fileName: string, content: string, mimeType: string)

  /** `exportPage`: the exported markup, delivered as `index.html` with type `text/html`. */
  method ExportPage<P>(toHtml: (P, string) -> string, components: Forest<P>, keys: seq<string>)
      returns (d: Download)
    requires EnumeratesKeys(keys, components)
    ensures d.fileName == "index.html" && d.mimeType == "text/html"
    ensures d.content == Html(toHtml, components, keys)
  {
    var html := GenerateHtml(toHtml, components, keys);
    d := Download("index.html", html, "text/html");
  }

  // ---------------------------------------------------------------------------
  // Properties of the exporter
  // ---------------------------------------------------------------------------

  /** Rendering a list is a monoid homomorphism: the fragments of `a + b` are those of `a` then those of `b`. */
  lemma {:induction false} RenderAllAppend<P>(toHtml: (P, string) -> string, a: seq<Component<P>>, b: seq<Component<P>>)
    ensures RenderAll(toHtml, a + b) == RenderAll(toHtml, a) + RenderAll(toHtml, b)
    decreases a
  {
    if a == [] {
      assert a + b == b;
    } else {
      assert (a + b)[0] == a[0];
      assert (a + b)[1..] == a[1..] + b;
      RenderAllAppend(toHtml, a[1..], b);
    }
  }

  /** Appending one container name to the keys appends that container's fragments to the export. */
  lemma HtmlSnoc<P>(toHtml: (P, string) -> string, m: Forest<P>, ks: seq<string>, k: string)
    requires forall j :: j in ks ==> j in m
    requires k in m
    ensures forall j :: j in ks + [k] ==> j in m
    ensures Html(toHtml, m, ks + [k]) == Html(toHtml, m, ks) + RenderAll(toHtml, m[k])
  {
  }

  /** Exporting the containers `k1 + k2` gives the export of `k1` followed by that of `k2`. */
  lemma {:induction false} HtmlAppend<P>(toHtml: (P, string) -> string, m: Forest<P>, k1: seq<string>, k2: seq<string>)
    requires forall k :: k in k1 ==> k in m
    requires forall k :: k in k2 ==> k in m
    ensures forall k :: k in k1 + k2 ==> k in m
    ensures Html(toHtml, m, k1 + k2) == Html(toHtml, m, k1) + Html(toHtml, m, k2)
    decreases |k2|
  {
    if k2 == [] {
      assert k1 + k2 == k1;
    } else {
      var init, last := k2[..|k2| - 1], k2[|k2| - 1];
      assert k2 == init + [last];
      assert k1 + k2 == (k1 + init) + [last];
      calc {
        Html(toHtml, m, k1 + k2);
      == { HtmlSnoc(toHtml, m, k1 + init, last); }
        Html(toHtml, m, k1 + init) + RenderAll(toHtml, m[last]);
      == { HtmlAppend(toHtml, m, k1, init); }
        Html(toHtml, m, k1) + Html(toHtml, m, init) + RenderAll(toHtml, m[last]);
      == { HtmlSnoc(toHtml, m, init, last); }
        Html(toHtml, m, k1) + Html(toHtml, m, k2);
      }
    }
  }

  /** The nodes of the containers named by `keys`, container after container, each in its own order. */
  function Flatten<P>(m: Forest<P>, keys: seq<string>): (r: seq<Component<P>>)
    requires forall k :: k in keys ==> k in m
  {
    if keys == [] then [] else m[keys[0]] + Flatten(m, keys[1..])
  }

  /**
   * The export visits containers in key order and nodes in list order: it is the
   * rendering of the single list obtained by concatenating the containers in key order.
   */
  lemma {:induction false} HtmlRendersFlattenedForest<P>(toHtml: (P, string) -> string, m: Forest<P>, keys: seq<string>)
    requires forall k :: k in keys ==> k in m
    ensures Html(toHtml, m, keys) == RenderAll(toHtml, Flatten(m, keys))
    decreases |keys|
  {
    if keys != [] {
      var first, rest := keys[0], keys[1..];
      assert keys == [first] + rest;
      calc {
        Html(toHtml, m, keys);
      == { HtmlAppend(toHtml, m, [first], rest); }
        Html(toHtml, m, [first]) + Html(toHtml, m, rest);
      == { HtmlSnoc(toHtml, m, [], first); assert [] + [first] == [first]; }
        RenderAll(toHtml, m[first]) + Html(toHtml, m, rest);
      == { HtmlRendersFlattenedForest(toHtml, m, rest); }
        RenderAll(toHtml, m[first]) + RenderAll(toHtml, Flatten(m, rest));
      == { RenderAllAppend(toHtml, m[first], Flatten(m, rest)); }
        RenderAll(toHtml, Flatten(m, keys));
      }
    }
  }

  /** The export is empty exactly when every container it visits is empty. */
  lemma {:induction false} HtmlEmptyIff<P>(toHtml: (P, string) -> string, m: Forest<P>, keys: seq<string>)
    requires forall k :: k in keys ==> k in m
    ensures Html(toHtml, m, keys) == "" <==> forall i :: 0 <= i < |keys| ==> |m[keys[i]]| == 0
    decreases |keys|
  {
    if keys != [] {
      var init := keys[..|keys| - 1];
      HtmlEmptyIff(toHtml, m, init);
      assert forall i :: 0 <= i < |init| ==> init[i] == keys[i];
    }
  }

  /**
   * The export is the empty string exactly when every container is empty; in
   * particular for a forest with no containers at all.
   */
  lemma ExportEmptyIffContainersEmpty<P>(toHtml: (P, string) -> string, m: Forest<P>, keys: seq<string>)
    requires EnumeratesKeys(keys, m)
    ensures Html(toHtml, m, keys) == "" <==> forall k :: k in m ==> |m[k]| == 0
  {
    HtmlEmptyIff(toHtml, m, keys);
    if Html(toHtml, m, keys) == "" {
      forall k | k in m ensures |m[k]| == 0 {
        assert k in keys;
        var i :| 0 <= i < |keys| && keys[i] == k;
      }
    }
  }

  /**
   * A section is exported as its wrapper, with `id="<id>"`, around the in-order
   * fragments of its children; an absent child list and an empty one give the
   * same, still emitted, empty wrapper.
   */
  lemma SectionFragment<P>(toHtml: (P, string) -> string, c: Component<P>)
    requires IsSection(c.id)
    ensures Render(toHtml, c) == SectionOpen(c.id) + RenderAll(toHtml, Kids(c)) + SectionClose
    ensures Render(toHtml, c.(children := Absent)) == Render(toHtml, c.(children := Present([])))
            == SectionOpen(c.id) + SectionClose
  {
  }

  /** A section's own payload is never emitted: replacing it changes nothing. */
  lemma SectionIgnoresPayload<P>(toHtml: (P, string) -> string, c: Component<P>, p: P)
    requires IsSection(c.id)
    ensures Render(toHtml, c.(component := p)) == Render(toHtml, c)
  {
  }

  /**
   * Every other node is exported as its content wrapped in `<header>`, `<footer>`,
   * or `<div>` (for `banner` and any other id), and its children never contribute.
   */
  lemma LeafFragment<P>(toHtml: (P, string) -> string, c: Component<P>, other: Children<P>)
    requires !IsSection(c.id)
    ensures Render(toHtml, c) == Element(LeafTag(c.id), toHtml(c.component, c.id))
    ensures Render(toHtml, c.(children := other)) == Render(toHtml, c)
  {
  }

  /**
   * The content function is consulted only for non-section nodes reachable through
   * sections: two content functions that agree there give the same export.
   */
  ghost predicate AgreeOnEmitted<P>(f: (P, string) -> string, g: (P, string) -> string, c: Component<P>)
    decreases c
  {
    if IsSection(c.id) then
      match c.children
      case Absent => true
      case Present(cs) => forall i :: 0 <= i < |cs| ==> AgreeOnEmitted(f, g, cs[i])
    else
      f(c.component, c.id) == g(c.component, c.id)
  }

  /**
   * A node's fragment is determined by its id, its content and (for sections) its
   * children's fragments alone: no other value of the content function is read.
   */
  lemma {:induction false} RenderReadsOnlyEmittedContent<P>(f: (P, string) -> string, g: (P, string) -> string, c: Component<P>)
    requires AgreeOnEmitted(f, g, c)
    ensures Render(f, c) == Render(g, c)
    decreases c
  {
    if IsSection(c.id) && c.children.Present? {
      RenderAllReadsOnlyEmittedContent(f, g, c.children.nodes);
    }
  }

  /** The list version of `RenderReadsOnlyEmittedContent`. */
  lemma {:induction false} RenderAllReadsOnlyEmittedContent<P>(f: (P, string) -> string, g: (P, string) -> string, cs: seq<Component<P>>)
    requires forall i :: 0 <= i < |cs| ==> AgreeOnEmitted(f, g, cs[i])
    ensures RenderAll(f, cs) == RenderAll(g, cs)
    decreases cs
  {
    if cs != [] {
      RenderReadsOnlyEmittedContent(f, g, cs[0]);
      RenderAllReadsOnlyEmittedContent(f, g, cs[1..]);
    }
  }

  /**
   * A work area holding a header and a section that holds a banner exports as the
   * header element followed by the section wrapper with the banner's `div` strictly inside it.
   */
  lemma NestedExportExample<P>(toHtml: (P, string) -> string, h: P, s: P, b: P)
    ensures
      var banner := Component("banner", b, Absent);
      var section := Component("section-1", s, Present([banner]));
      var forest := map["root" := [Component("header", h, Absent), section]];
      Html(toHtml, forest, ["root"])
        == "<header>" + toHtml(h, "header") + "</header>"
         + SectionOpen("section-1") + "<div>" + toHtml(b, "banner") + "</div>" + SectionClose
  {
    var banner := Component("banner", b, Absent);
    var section := Component("section-1", s, Present([banner]));
    var header := Component("header", h, Absent);
    var forest := map["root" := [header, section]];
    assert !IsSection("header") && !IsSection("banner") && IsSection("section-1");
    var bannerHtml := "<div>" + toHtml(b, "banner") + "</div>";
    assert Render(toHtml, banner) == bannerHtml;
    assert RenderAll(toHtml, [banner]) == bannerHtml by {
      assert [banner][1..] == [];
    }
    assert Render(toHtml, section) == SectionOpen("section-1") + bannerHtml + SectionClose;
    assert RenderAll(toHtml, [header, section]) == Render(toHtml, header) + Render(toHtml, section) by {
      assert [header, section][1..] == [section];
      assert [section][1..] == [];
    }
    calc {
      Html(toHtml, forest, ["root"]);
    == { HtmlSnoc(toHtml, forest, [], "root"); assert [] + ["root"] == ["root"]; }
      RenderAll(toHtml, [header, section]);
    }
  }
}

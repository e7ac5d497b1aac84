/** The link rewriter of linkrewrite.go: in an HTML fragment, every `<a>`
    whose first `href` is a relative reference (no scheme, no host) to a path
    ending in ".md" is pointed at the ".html" file instead.

    URL parsing and printing (`url.Parse` and `(*url.URL).String`) are
    library code outside this model; they are the parameters `parseUrl` and
    `formatUrl`. Where a property needs them to agree, it assumes
    `RoundTrip(parseUrl, formatUrl)`: parsing a printed URL gives it back. */
module LinkRewrite {
  import opened Common
  import opened Html

  /** A parsed URL reference: the three components the rewrite reads or
      writes, and `others` for the user, query and fragment it carries over. */
  datatype Url = Url(scheme: string, host: string, path: string, others: string)

  /** `parseUrl` is a left inverse of `formatUrl`. */
  ghost predicate RoundTrip(parseUrl: string -> Option<Url>, formatUrl: Url -> string)
  {
    forall u :: parseUrl(formatUrl(u)) == Some(u)
  }

  /** The guard of linkrewrite.go:37, negated: no scheme, no host, and a path
      ending in ".md". */
  predicate Rewritable(u: Url)
  {
    u.scheme == "" && u.host == "" && HasSuffix(u.path, MdSuffix)
  }

  /** linkrewrite.go:40: the ".md" at the end of the path becomes ".html";
      every other component is kept. */
  function Retarget(u: Url): (v: Url)
    requires Rewritable(u)
    ensures v.scheme == u.scheme && v.host == u.host && v.others == u.others
    ensures HasSuffix(v.path, HtmlSuffix) && v.path[..|v.path| - |HtmlSuffix|] + MdSuffix == u.path
    ensures !Rewritable(v)
  {
    var v := u.(path := TrimSuffix(u.path, MdSuffix) + HtmlSuffix);
    assert v.path[|v.path| - |HtmlSuffix|..] == HtmlSuffix;
    assert v.path[|v.path| - |MdSuffix|..] == "tml";
    v
  }

  /** The href value `v` parses to a reference the rewrite applies to. */
  predicate Rewrites(parseUrl: string -> Option<Url>, v: string)
  {
    parseUrl(v).Some? && Rewritable(parseUrl(v).value)
  }

  /** The value an `href` ends with (linkrewrite.go:36-41): the printed,
      retargeted reference, or `v` itself when it does not parse or the rule
      does not apply. */
  function NewHref(parseUrl: string -> Option<Url>, formatUrl: Url -> string, v: string): string
  {
    match parseUrl(v)
    case None => v
    case Some(u) => if Rewritable(u) then formatUrl(Retarget(u)) else v
  }

  /** With a round-tripping parser the value changes exactly when the rule
      applies, the new value parses to the retargeted reference, and the rule
      no longer applies to it: a second pass leaves it alone. */
  lemma HrefRule(parseUrl: string -> Option<Url>, formatUrl: Url -> string, v: string)
    requires RoundTrip(parseUrl, formatUrl)
    ensures NewHref(parseUrl, formatUrl, v) != v <==> Rewrites(parseUrl, v)
    ensures Rewrites(parseUrl, v) ==> parseUrl(NewHref(parseUrl, formatUrl, v)) == Some(Retarget(parseUrl(v).value))
    ensures !Rewrites(parseUrl, NewHref(parseUrl, formatUrl, v))
    ensures NewHref(parseUrl, formatUrl, NewHref(parseUrl, formatUrl, v)) == NewHref(parseUrl, formatUrl, v)
  {
    var w := NewHref(parseUrl, formatUrl, v);
    if Rewrites(parseUrl, v) {
      var u := parseUrl(v).value;
      assert parseUrl(formatUrl(Retarget(u))) == Some(Retarget(u));
    }
  }

  // ---------------------------------------------------------- attributes

  /** The attribute loop of linkrewrite.go:34-44: only the first `href` is
      looked at, and only its value may change. */
  function RewriteAttrs(parseUrl: string -> Option<Url>, formatUrl: Url -> string, attrs: seq<Attr>): (r: seq<Attr>)
    ensures |r| == |attrs|
    ensures forall i :: 0 <= i < |attrs| ==> r[i].key == attrs[i].key && r[i].namespace == attrs[i].namespace
    ensures forall i :: 0 <= i < |attrs| && i != FindKey(attrs, "href") ==> r[i] == attrs[i]
    ensures FindKey(attrs, "href") < |attrs| ==>
              r[FindKey(attrs, "href")].val == NewHref(parseUrl, formatUrl, attrs[FindKey(attrs, "href")].val)
  {
    var k := FindKey(attrs, "href");
    if k < |attrs| then attrs[k := attrs[k].(val := NewHref(parseUrl, formatUrl, attrs[k].val))] else attrs
  }

  /** The first `href` of `attrs` is one the rule applies to. */
  predicate HrefRewrites(parseUrl: string -> Option<Url>, attrs: seq<Attr>)
  {
    var k := FindKey(attrs, "href");
    k < |attrs| && Rewrites(parseUrl, attrs[k].val)
  }

  /** linkrewrite.go:34-44 as a loop that stops at the first `href`. */
  method RewriteHrefAttr(parseUrl: string -> Option<Url>, formatUrl: Url -> string, attrs: seq<Attr>)
    returns (r: seq<Attr>)
    ensures r == RewriteAttrs(parseUrl, formatUrl, attrs)
  {
    for i := 0 to |attrs|
      invariant forall j :: 0 <= j < i ==> attrs[j].key != "href"
    {
      if attrs[i].key == "href" {
        var u := parseUrl(attrs[i].val);
        if u.None? || u.value.scheme != "" || u.value.host != "" || !HasSuffix(u.value.path, MdSuffix) {
          assert attrs[i := attrs[i]] == attrs;
          return attrs;
        }
        var v := u.value.(path := TrimSuffix(u.value.path, MdSuffix) + HtmlSuffix);
        return attrs[i := attrs[i].(val := formatUrl(v))];
      }
    }
    r := attrs;
  }

  /** With a round-tripping parser the attributes change exactly when the
      first `href` is rewritable, and after the rewrite it no longer is. */
  lemma AttrsRule(parseUrl: string -> Option<Url>, formatUrl: Url -> string, attrs: seq<Attr>)
    ensures !HrefRewrites(parseUrl, attrs) ==> RewriteAttrs(parseUrl, formatUrl, attrs) == attrs
    ensures RoundTrip(parseUrl, formatUrl) && RewriteAttrs(parseUrl, formatUrl, attrs) == attrs ==> !HrefRewrites(parseUrl, attrs)
    ensures RoundTrip(parseUrl, formatUrl) ==> !HrefRewrites(parseUrl, RewriteAttrs(parseUrl, formatUrl, attrs))
  {
    var k := FindKey(attrs, "href");
    var r := RewriteAttrs(parseUrl, formatUrl, attrs);
    FindKeySameKeys(attrs, r, "href");
    if k < |attrs| {
      assert !Rewrites(parseUrl, attrs[k].val) ==> r == attrs[k := attrs[k]] == attrs;
      if RoundTrip(parseUrl, formatUrl) {
        HrefRule(parseUrl, formatUrl, attrs[k].val);
        assert r == attrs ==> r[k].val == attrs[k].val;
      }
    }
  }

  // -------------------------------------------------------------- tree

  /** walkFn of linkrewrite.go:32-49: every element is visited, `<a>`
      elements have their attributes rewritten, and the children of every
      element (an `<a>` included) are walked in order. */
  function RewriteNode(parseUrl: string -> Option<Url>, formatUrl: Url -> string, n: Node): Node
    decreases n
  {
    if n.Element? then
      var attrs := if n.tag == "a" then RewriteAttrs(parseUrl, formatUrl, n.attrs) else n.attrs;
      Element(n.tag, attrs, RewriteForest(parseUrl, formatUrl, n.children))
    else n
  }

  function RewriteForest(parseUrl: string -> Option<Url>, formatUrl: Url -> string, cs: seq<Node>): (r: seq<Node>)
    ensures |r| == |cs|
    decreases cs
  {
    if cs == [] then []
    else RewriteForest(parseUrl, formatUrl, cs[..|cs| - 1]) + [RewriteNode(parseUrl, formatUrl, cs[|cs| - 1])]
  }

  /** walkFn as a recursive method with the sibling loop of linkrewrite.go:46-48. */
  method RewriteTree(parseUrl: string -> Option<Url>, formatUrl: Url -> string, n: Node) returns (m: Node)
    ensures m == RewriteNode(parseUrl, formatUrl, n)
    decreases n
  {
    if !n.Element? {
      return n;
    }
    var attrs := n.attrs;
    if n.tag == "a" {
      attrs := RewriteHrefAttr(parseUrl, formatUrl, n.attrs);
    }
    var out: seq<Node> := [];
    var i := 0;
    while i < |n.children|
      invariant 0 <= i <= |n.children|
      invariant out == RewriteForest(parseUrl, formatUrl, n.children[..i])
    {
      assert n.children[..i + 1][..i] == n.children[..i];
      var c := RewriteTree(parseUrl, formatUrl, n.children[i]);
      out := out + [c];
      i := i + 1;
    }
    assert n.children[..i] == n.children;
    m := Element(n.tag, attrs, out);
  }

  /** The number of `<a>` elements anywhere in the tree (inside other `<a>`
      elements too) whose first `href` the rule applies to. */
  function LinkCount(parseUrl: string -> Option<Url>, n: Node): nat
    decreases n
  {
    if n.Element? then
      (if n.tag == "a" && HrefRewrites(parseUrl, n.attrs) then 1 else 0) + ForestLinkCount(parseUrl, n.children)
    else 0
  }

  function ForestLinkCount(parseUrl: string -> Option<Url>, cs: seq<Node>): nat
    decreases cs
  {
    if cs == [] then 0
    else ForestLinkCount(parseUrl, cs[..|cs| - 1]) + LinkCount(parseUrl, cs[|cs| - 1])
  }

  /** A tree without rewritable links comes back as it was; with a
      round-tripping parser that is the only way to come back unchanged. */
  lemma {:induction false} UnchangedIffNoLinks(parseUrl: string -> Option<Url>, formatUrl: Url -> string, n: Node)
    ensures LinkCount(parseUrl, n) == 0 ==> RewriteNode(parseUrl, formatUrl, n) == n
    ensures RoundTrip(parseUrl, formatUrl) && RewriteNode(parseUrl, formatUrl, n) == n ==> LinkCount(parseUrl, n) == 0
    decreases n, 1
  {
    if n.Element? {
      ForestUnchangedIffNoLinks(parseUrl, formatUrl, n.children);
      AttrsRule(parseUrl, formatUrl, n.attrs);
    }
  }

  lemma {:induction false} ForestUnchangedIffNoLinks(parseUrl: string -> Option<Url>, formatUrl: Url -> string, cs: seq<Node>)
    ensures ForestLinkCount(parseUrl, cs) == 0 ==> RewriteForest(parseUrl, formatUrl, cs) == cs
    ensures RoundTrip(parseUrl, formatUrl) && RewriteForest(parseUrl, formatUrl, cs) == cs ==> ForestLinkCount(parseUrl, cs) == 0
    decreases cs, 0
  {
    if cs != [] {
      var init := cs[..|cs| - 1];
      var last := cs[|cs| - 1];
      ForestUnchangedIffNoLinks(parseUrl, formatUrl, init);
      UnchangedIffNoLinks(parseUrl, formatUrl, last);
      assert cs == init + [last];
      var r := RewriteForest(parseUrl, formatUrl, cs);
      assert r == cs ==> r[..|cs| - 1] == init && r[|cs| - 1] == last;
    }
  }

  /** With a round-tripping parser no rewritable link survives the walk: every
      node is visited, the descendants of `<a>` elements included. */
  lemma {:induction false} NoLinksLeft(parseUrl: string -> Option<Url>, formatUrl: Url -> string, n: Node)
    requires RoundTrip(parseUrl, formatUrl)
    ensures LinkCount(parseUrl, RewriteNode(parseUrl, formatUrl, n)) == 0
    decreases n, 1
  {
    if n.Element? {
      ForestNoLinksLeft(parseUrl, formatUrl, n.children);
      AttrsRule(parseUrl, formatUrl, n.attrs);
    }
  }

  lemma {:induction false} ForestNoLinksLeft(parseUrl: string -> Option<Url>, formatUrl: Url -> string, cs: seq<Node>)
    requires RoundTrip(parseUrl, formatUrl)
    ensures ForestLinkCount(parseUrl, RewriteForest(parseUrl, formatUrl, cs)) == 0
    decreases cs, 0
  {
    if cs != [] {
      var init := cs[..|cs| - 1];
      var last := cs[|cs| - 1];
      ForestNoLinksLeft(parseUrl, formatUrl, init);
      NoLinksLeft(parseUrl, formatUrl, last);
      var r := RewriteForest(parseUrl, formatUrl, cs);
      assert r[..|r| - 1] == RewriteForest(parseUrl, formatUrl, init);
    }
  }

  /** The rewrite is idempotent: a second walk changes nothing. */
  lemma RewriteIdempotent(parseUrl: string -> Option<Url>, formatUrl: Url -> string, n: Node)
    requires RoundTrip(parseUrl, formatUrl)
    ensures RewriteNode(parseUrl, formatUrl, RewriteNode(parseUrl, formatUrl, n)) == RewriteNode(parseUrl, formatUrl, n)
  {
    NoLinksLeft(parseUrl, formatUrl, n);
    UnchangedIffNoLinks(parseUrl, formatUrl, RewriteNode(parseUrl, formatUrl, n));
  }

  /** The tree with the value of the first `href` of every `<a>` blanked:
      what the walk must leave untouched. */
  function EraseLinks(n: Node): Node
    decreases n
  {
    if n.Element? then
      var k := FindKey(n.attrs, "href");
      var attrs := if n.tag == "a" && k < |n.attrs| then n.attrs[k := n.attrs[k].(val := "")] else n.attrs;
      Element(n.tag, attrs, EraseForestLinks(n.children))
    else n
  }

  function EraseForestLinks(cs: seq<Node>): (r: seq<Node>)
    ensures |r| == |cs|
    decreases cs
  {
    if cs == [] then [] else EraseForestLinks(cs[..|cs| - 1]) + [EraseLinks(cs[|cs| - 1])]
  }

  /** Nothing but the first `href` value of `<a>` elements changes: tags,
      text, comments, other attributes and other elements stay as they were. */
  lemma {:induction false} OnlyHrefsChange(parseUrl: string -> Option<Url>, formatUrl: Url -> string, n: Node)
    ensures EraseLinks(RewriteNode(parseUrl, formatUrl, n)) == EraseLinks(n)
    decreases n, 1
  {
    if n.Element? {
      ForestOnlyHrefsChange(parseUrl, formatUrl, n.children);
      if n.tag == "a" {
        var r := RewriteAttrs(parseUrl, formatUrl, n.attrs);
        FindKeySameKeys(n.attrs, r, "href");
        var k := FindKey(n.attrs, "href");
        if k < |n.attrs| {
          assert r[k := r[k].(val := "")] == n.attrs[k := n.attrs[k].(val := "")];
        }
      }
    }
  }

  lemma {:induction false} ForestOnlyHrefsChange(parseUrl: string -> Option<Url>, formatUrl: Url -> string, cs: seq<Node>)
    ensures EraseForestLinks(RewriteForest(parseUrl, formatUrl, cs)) == EraseForestLinks(cs)
    decreases cs, 0
  {
    if cs != [] {
      var init := cs[..|cs| - 1];
      ForestOnlyHrefsChange(parseUrl, formatUrl, init);
      OnlyHrefsChange(parseUrl, formatUrl, cs[|cs| - 1]);
      var r := RewriteForest(parseUrl, formatUrl, cs);
      assert r[..|r| - 1] == RewriteForest(parseUrl, formatUrl, init);
    }
  }

  // ------------------------------------------------------- rewriteLinks

  /** rewriteLinks (linkrewrite.go:15-58): input without ".md" is returned
      as it is; otherwise it is parsed as the children of an `<article>`, the
      article is walked, and its children are rendered one after another. */
  function LinkedHtml(parseHtml: Bytes -> Result<seq<Node>>, render: Node -> Result<Bytes>,
                      parseUrl: string -> Option<Url>, formatUrl: Url -> string, b: Bytes): Result<Bytes>
  {
    if !Contains(b, MdBytes) then Ok(b)
    else match parseHtml(b)
      case Fail(e) => Fail(e)
      case Ok(nodes) => RenderAll(render, RewriteNode(parseUrl, formatUrl, Element("article", [], nodes)).children)
  }

  method RewriteLinks(parseHtml: Bytes -> Result<seq<Node>>, render: Node -> Result<Bytes>,
                      parseUrl: string -> Option<Url>, formatUrl: Url -> string, b: Bytes) returns (r: Result<Bytes>)
    ensures r == LinkedHtml(parseHtml, render, parseUrl, formatUrl, b)
    ensures !Contains(b, MdBytes) ==> r == Ok(b)
    ensures Contains(b, MdBytes) && parseHtml(b).Ok? ==>
              r == RenderAll(render, RewriteForest(parseUrl, formatUrl, parseHtml(b).value))
  {
    if !Contains(b, MdBytes) {
      return Ok(b);
    }
    var parsed := parseHtml(b);
    if parsed.Fail? {
      return Fail(parsed.error);
    }
    var root := RewriteTree(parseUrl, formatUrl, Element("article", [], parsed.value));
    r := RenderChildren(render, root.children);
  }

  // ------------------------------------------------------------ example

  /** The first link of linkrewrite_test.go:8-9 has a host and is kept. */
  lemma ExampleAbsoluteLink(parseUrl: string -> Option<Url>, formatUrl: Url -> string)
    requires parseUrl("//example.com/foo.md") == Some(Url("", "example.com", "/foo.md", ""))
    ensures RewriteNode(parseUrl, formatUrl, Element("a", [Attr("", "href", "//example.com/foo.md")], [Text("link1")]))
         == Element("a", [Attr("", "href", "//example.com/foo.md")], [Text("link1")])
  {
    var attrs := [Attr("", "href", "//example.com/foo.md")];
    assert FindKey(attrs, "href") == 0;
    assert RewriteAttrs(parseUrl, formatUrl, attrs) == attrs;
    assert [Text("link1")][..0] == [];
  }

  /** The second link is relative and points at a ".md" file: it is
      retargeted at "/bar.html". */
  lemma ExampleRelativeLink(parseUrl: string -> Option<Url>, formatUrl: Url -> string)
    requires parseUrl("/bar.md") == Some(Url("", "", "/bar.md", ""))
    requires formatUrl(Url("", "", "/bar.html", "")) == "/bar.html"
    ensures RewriteNode(parseUrl, formatUrl, Element("a", [Attr("", "href", "/bar.md")], [Text("link2")]))
         == Element("a", [Attr("", "href", "/bar.html")], [Text("link2")])
  {
    var attrs := [Attr("", "href", "/bar.md")];
    assert FindKey(attrs, "href") == 0;
    var u := Url("", "", "/bar.md", "");
    assert Rewritable(u);
    assert TrimSuffix(u.path, MdSuffix) == "/bar";
    assert Retarget(u) == Url("", "", "/bar.html", "");
    assert RewriteAttrs(parseUrl, formatUrl, attrs) == [Attr("", "href", "/bar.html")];
    assert [Text("link2")][..0] == [];
  }

  /** linkrewrite_test.go:7-17: in `<p>Link: <a href="//example.com/foo.md">
      link1</a>, <a href="/bar.md">link2</a></p>` only the second link
      changes, to "/bar.html". */
  lemma LinkExample(parseUrl: string -> Option<Url>, formatUrl: Url -> string)
    requires parseUrl("//example.com/foo.md") == Some(Url("", "example.com", "/foo.md", ""))
    requires parseUrl("/bar.md") == Some(Url("", "", "/bar.md", ""))
    requires formatUrl(Url("", "", "/bar.html", "")) == "/bar.html"
    ensures RewriteNode(parseUrl, formatUrl,
              Element("p", [], [Text("Link: "), Element("a", [Attr("", "href", "//example.com/foo.md")], [Text("link1")]),
                                Text(", "), Element("a", [Attr("", "href", "/bar.md")], [Text("link2")])]))
         == Element("p", [], [Text("Link: "), Element("a", [Attr("", "href", "//example.com/foo.md")], [Text("link1")]),
                              Text(", "), Element("a", [Attr("", "href", "/bar.html")], [Text("link2")])])
  {
    var a1 := Element("a", [Attr("", "href", "//example.com/foo.md")], [Text("link1")]);
    var a2 := Element("a", [Attr("", "href", "/bar.md")], [Text("link2")]);
    var a2' := Element("a", [Attr("", "href", "/bar.html")], [Text("link2")]);
    ExampleAbsoluteLink(parseUrl, formatUrl);
    ExampleRelativeLink(parseUrl, formatUrl);
    var cs := [Text("Link: "), a1, Text(", "), a2];
    var c1 := [Text("Link: ")];
    var c2 := c1 + [a1];
    var c3 := c2 + [Text(", ")];
    assert c1[..0] == [] && c2[..1] == c1 && c3[..2] == c2 && cs[..3] == c3 && cs == c3 + [a2];
    assert RewriteForest(parseUrl, formatUrl, c1) == c1;
    assert RewriteForest(parseUrl, formatUrl, c2) == c2;
    assert RewriteForest(parseUrl, formatUrl, c3) == c3;
    assert RewriteForest(parseUrl, formatUrl, cs) == [Text("Link: "), a1, Text(", "), a2'];
  }
}

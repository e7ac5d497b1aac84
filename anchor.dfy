/** The anchor assigner of anchor.go: a depth-first walk over a parsed
    fragment that gives every `h1`..`h6` element an `id` made from the slug
    of its text, made unique within the document against a `seen` set by
    probing the suffixes `-1` .. `-99`.

    The slug function (`anchor.Create`) is library code and is a parameter
    `slug` throughout. The walk is modelled as a function from the old tree
    and the old `seen` set to the new tree and the new set (`AnnotateNode`),
    and as a recursive method that performs it (`Walk`). */
module Anchor {
  import opened Common
  import opened Html

  /** The six heading elements (anchor.go:33-39). */
  predicate IsHeading(n: Node)
  {
    n.Element? && n.tag in {"h1", "h2", "h3", "h4", "h5", "h6"}
  }

  // ---------------------------------------------------------------- text

  /** The text of a subtree: the data of its text nodes, in document order. */
  function NodeText(n: Node): string
    decreases n
  {
    match n
    case Text(d) => d
    case Comment(_) => ""
    case Element(_, _, cs) => ForestText(cs)
  }

  function ForestText(cs: seq<Node>): string
    decreases cs
  {
    if cs == [] then "" else ForestText(cs[..|cs| - 1]) + NodeText(cs[|cs| - 1])
  }

  /** nodeText (anchor.go:88-100): a pre-order recursion appending the data
      of every text node to one builder. */
  method CollectText(n: Node) returns (s: string)
    ensures s == NodeText(n)
    decreases n
  {
    s := "";
    if n.Text? {
      s := n.data;
    }
    if n.Element? {
      var i := 0;
      while i < |n.children|
        invariant 0 <= i <= |n.children|
        invariant s == ForestText(n.children[..i])
      {
        assert n.children[..i + 1][..i] == n.children[..i];
        var t := CollectText(n.children[i]);
        s := s + t;
        i := i + 1;
      }
      assert n.children[..i] == n.children;
    }
  }

  /** The nodes of a subtree in pre-order: a reference for `NodeText`. */
  function Preorder(n: Node): seq<Node>
    decreases n
  {
    if n.Element? then [n] + PreorderForest(n.children) else [n]
  }

  function PreorderForest(cs: seq<Node>): seq<Node>
    decreases cs
  {
    if cs == [] then [] else PreorderForest(cs[..|cs| - 1]) + Preorder(cs[|cs| - 1])
  }

  /** The data of the text nodes among `ns`, concatenated. */
  function TextData(ns: seq<Node>): string
  {
    if ns == [] then "" else (if ns[0].Text? then ns[0].data else "") + TextData(ns[1..])
  }

  lemma {:induction false} TextDataAppend(a: seq<Node>, b: seq<Node>)
    ensures TextData(a + b) == TextData(a) + TextData(b)
  {
    if a == [] {
      assert a + b == b;
    } else {
      assert (a + b)[0] == a[0] && (a + b)[1..] == a[1..] + b;
      TextDataAppend(a[1..], b);
    }
  }

  /** The text of a heading is exactly the data of the text nodes of its
      subtree, visited in pre-order. */
  lemma {:induction false} NodeTextIsPreorderText(n: Node)
    ensures NodeText(n) == TextData(Preorder(n))
    decreases n
  {
    if n.Element? {
      ForestTextIsPreorderText(n.children);
      TextDataAppend([n], PreorderForest(n.children));
    }
  }

  lemma {:induction false} ForestTextIsPreorderText(cs: seq<Node>)
    ensures ForestText(cs) == TextData(PreorderForest(cs))
    decreases cs
  {
    if cs != [] {
      ForestTextIsPreorderText(cs[..|cs| - 1]);
      NodeTextIsPreorderText(cs[|cs| - 1]);
      TextDataAppend(PreorderForest(cs[..|cs| - 1]), Preorder(cs[|cs| - 1]));
    }
  }

  // ------------------------------------------------------- unique slugs

  /** Go's `%d` for a natural number. */
  function Decimal(i: nat): string
  {
    if i < 10 then [Digit(i)] else Decimal(i / 10) + [Digit(i % 10)]
  }

  function Digit(d: nat): (c: char)
    requires d < 10
    ensures '0' <= c <= '9'
  {
    ('0' as int + d) as char
  }

  /** The candidate `fmt.Sprintf("%s-%d", slug, i)` (anchor.go:55). */
  function Suffixed(slug: string, i: nat): string
  {
    slug + "-" + Decimal(i)
  }

  /** The bare slug and all 99 suffixed candidates are already taken. */
  predicate Exhausted(slug: string, seen: set<string>)
  {
    slug in seen && forall i :: 1 <= i < 100 ==> Suffixed(slug, i) in seen
  }

  /** The smallest suffix `k` in `i` .. 99 whose candidate is free, or 100. */
  function FreeSuffix(slug: string, seen: set<string>, i: nat): (k: nat)
    requires 1 <= i <= 100
    ensures i <= k <= 100
    ensures k < 100 ==> Suffixed(slug, k) !in seen
    ensures forall j :: i <= j < k ==> Suffixed(slug, j) in seen
    decreases 100 - i
  {
    if i == 100 then 100
    else if Suffixed(slug, i) !in seen then i
    else FreeSuffix(slug, seen, i + 1)
  }

  /** The id a heading with slug `slug` receives, and the new `seen` set
      (anchor.go:51-62). */
  function ChooseId(slug: string, seen: set<string>): (r: (string, set<string>))
    ensures r.1 == seen + {r.0}
    ensures slug !in seen ==> r.0 == slug
    ensures r.0 in seen <==> Exhausted(slug, seen)
    ensures Exhausted(slug, seen) ==> r.0 == slug && r.1 == seen
    ensures slug in seen && !Exhausted(slug, seen) ==>
              exists k :: 1 <= k < 100 && r.0 == Suffixed(slug, k)
                          && forall j :: 1 <= j < k ==> Suffixed(slug, j) in seen
  {
    if slug !in seen then (slug, seen + {slug})
    else
      var k := FreeSuffix(slug, seen, 1);
      if k < 100 then (Suffixed(slug, k), seen + {Suffixed(slug, k)})
      else (slug, seen)
  }

  /** The probe of anchor.go:51-62: the bare slug if unseen, otherwise the
      first free `slug-i` for `i` from 1 to 99; the bare slug if none is free. */
  method Uniquify(slug: string, seen: set<string>) returns (id: string, seen': set<string>)
    ensures (id, seen') == ChooseId(slug, seen)
  {
    if slug !in seen {
      return slug, seen + {slug};
    }
    var i := 1;
    while i < 100
      invariant 1 <= i <= 100
      invariant FreeSuffix(slug, seen, i) == FreeSuffix(slug, seen, 1)
    {
      var s := slug + "-" + Decimal(i);
      if s !in seen {
        return s, seen + {s};
      }
      i := i + 1;
    }
    return slug, seen;
  }

  // ----------------------------------------------------------- id attribute

  /** The value of the first `id` attribute, if there is one. */
  function IdOf(attrs: seq<Attr>): Option<string>
  {
    var k := FindKey(attrs, "id");
    if k < |attrs| then Some(attrs[k].val) else None
  }

  /** anchor.go:63-69: overwrite the value of the first `id` attribute, or
      append `id` at the end when there is none. */
  function SetId(attrs: seq<Attr>, id: string): seq<Attr>
  {
    var k := FindKey(attrs, "id");
    if k < |attrs| then attrs[k := attrs[k].(val := id)] else attrs + [Attr("", "id", id)]
  }

  /** After SetId the first `id` is the new one, an `id` is added only when
      there was none (so a second run never adds another), and every other
      attribute is kept, in order. */
  lemma SetIdProperties(attrs: seq<Attr>, id: string)
    ensures IdOf(SetId(attrs, id)) == Some(id)
    ensures CountKey(SetId(attrs, id), "id") == if CountKey(attrs, "id") == 0 then 1 else CountKey(attrs, "id")
    ensures RemoveKey(SetId(attrs, id), "id") == RemoveKey(attrs, "id")
  {
    var k := FindKey(attrs, "id");
    var r := SetId(attrs, id);
    AbsentKey(attrs, "id");
    if k < |attrs| {
      ReplaceValueKeepsKeys(attrs, k, id);
      assert forall i :: 0 <= i < |r| ==> r[i].key == attrs[i].key;
      assert FindKey(r, "id") == k;
    } else {
      CountKeyAppend(attrs, [Attr("", "id", id)], "id");
      assert forall i :: 0 <= i < |attrs| ==> r[i] == attrs[i];
      assert r[|attrs|].key == "id";
      assert FindKey(r, "id") == |attrs|;
      assert RemoveKey([Attr("", "id", id)], "id") == [];
      assert attrs + [] == attrs;
    }
  }

  /** The attribute loop of anchor.go:63-69. */
  method SetIdAttr(attrs: seq<Attr>, id: string) returns (r: seq<Attr>)
    ensures r == SetId(attrs, id)
  {
    for i := 0 to |attrs|
      invariant forall j :: 0 <= j < i ==> attrs[j].key != "id"
    {
      if attrs[i].key == "id" {
        return attrs[i := attrs[i].(val := id)];
      }
    }
    r := attrs + [Attr("", "id", id)];
  }

  // ---------------------------------------------------------------- walk

  /** walkFn of anchor.go:36-70: a heading gets its id and its children are
      not walked; any other element has its children walked in order; text
      and comments are left alone. */
  function AnnotateNode(slug: string -> string, n: Node, seen: set<string>): (Node, set<string>)
    decreases n
  {
    if IsHeading(n) then
      var (id, seen') := ChooseId(slug(NodeText(n)), seen);
      (n.(attrs := SetId(n.attrs, id)), seen')
    else if n.Element? then
      var (cs, seen') := AnnotateForest(slug, n.children, seen);
      (n.(children := cs), seen')
    else (n, seen)
  }

  /** The walk over a list of siblings, left to right, threading `seen`. */
  function AnnotateForest(slug: string -> string, cs: seq<Node>, seen: set<string>): (seq<Node>, set<string>)
    decreases cs
  {
    if cs == [] then ([], seen)
    else
      var (init, s1) := AnnotateForest(slug, cs[..|cs| - 1], seen);
      var (last, s2) := AnnotateNode(slug, cs[|cs| - 1], s1);
      (init + [last], s2)
  }

  /** One more sibling at the end of a list. */
  lemma ForestSnoc(slug: string -> string, cs: seq<Node>, n: Node, seen: set<string>)
    ensures AnnotateForest(slug, cs + [n], seen)
         == (AnnotateForest(slug, cs, seen).0 + [AnnotateNode(slug, n, AnnotateForest(slug, cs, seen).1).0],
             AnnotateNode(slug, n, AnnotateForest(slug, cs, seen).1).1)
  {
    assert (cs + [n])[..|cs + [n]| - 1] == cs;
  }

  /** walkFn as a recursive method. */
  method Walk(slug: string -> string, n: Node, seen: set<string>) returns (m: Node, seen': set<string>)
    ensures (m, seen') == AnnotateNode(slug, n, seen)
    decreases n
  {
    if IsHeading(n) {
      var title := CollectText(n);
      var id;
      id, seen' := Uniquify(slug(title), seen);
      var attrs := SetIdAttr(n.attrs, id);
      return n.(attrs := attrs), seen';
    }
    if !n.Element? {
      return n, seen;
    }
    var out: seq<Node> := [];
    seen' := seen;
    var i := 0;
    while i < |n.children|
      invariant 0 <= i <= |n.children|
      invariant (out, seen') == AnnotateForest(slug, n.children[..i], seen)
    {
      assert n.children[..i + 1][..i] == n.children[..i];
      var c;
      c, seen' := Walk(slug, n.children[i], seen');
      out := out + [c];
      i := i + 1;
    }
    assert n.children[..i] == n.children;
    m := n.(children := out);
  }

  // ------------------------------------------------ headings and their ids

  /** The slugs of the headings the walk reaches, in the order it reaches them. */
  function HeadingSlugs(slug: string -> string, n: Node): seq<string>
    decreases n
  {
    if IsHeading(n) then [slug(NodeText(n))]
    else if n.Element? then ForestHeadingSlugs(slug, n.children)
    else []
  }

  function ForestHeadingSlugs(slug: string -> string, cs: seq<Node>): seq<string>
    decreases cs
  {
    if cs == [] then []
    else ForestHeadingSlugs(slug, cs[..|cs| - 1]) + HeadingSlugs(slug, cs[|cs| - 1])
  }

  /** The first `id` of each heading a walk would reach, in walk order. */
  function HeadingIds(n: Node): seq<Option<string>>
    decreases n
  {
    if IsHeading(n) then [IdOf(n.attrs)]
    else if n.Element? then ForestHeadingIds(n.children)
    else []
  }

  function ForestHeadingIds(cs: seq<Node>): seq<Option<string>>
    decreases cs
  {
    if cs == [] then [] else ForestHeadingIds(cs[..|cs| - 1]) + HeadingIds(cs[|cs| - 1])
  }

  function Somes(ids: seq<string>): (r: seq<Option<string>>)
    ensures |r| == |ids| && forall i :: 0 <= i < |ids| ==> r[i] == Some(ids[i])
  {
    if ids == [] then [] else Somes(ids[..|ids| - 1]) + [Some(ids[|ids| - 1])]
  }

  /** The ids the walk hands out to a list of heading slugs, in order, and
      the final `seen` set: ChooseId folded over the list. */
  function AssignAll(slugs: seq<string>, seen: set<string>): (r: (seq<string>, set<string>))
    ensures |r.0| == |slugs|
  {
    if slugs == [] then ([], seen)
    else
      var (ids, s1) := AssignAll(slugs[..|slugs| - 1], seen);
      var (id, s2) := ChooseId(slugs[|slugs| - 1], s1);
      (ids + [id], s2)
  }

  lemma {:induction false} AssignAllAppend(a: seq<string>, b: seq<string>, seen: set<string>)
    ensures AssignAll(a + b, seen)
         == (AssignAll(a, seen).0 + AssignAll(b, AssignAll(a, seen).1).0, AssignAll(b, AssignAll(a, seen).1).1)
    decreases |b|
  {
    var sa := AssignAll(a, seen);
    if b == [] {
      assert a + b == a;
      assert sa.0 + [] == sa.0;
    } else {
      var b' := b[..|b| - 1];
      var x := b[|b| - 1];
      assert (a + b)[..|a + b| - 1] == a + b';
      assert (a + b)[|a + b| - 1] == x;
      AssignAllAppend(a, b', seen);
      var r' := AssignAll(b', sa.1);
      var c := ChooseId(x, r'.1);
      assert AssignAll(b, sa.1) == (r'.0 + [c.0], c.1);
      assert AssignAll(a + b', seen) == (sa.0 + r'.0, r'.1);
      assert AssignAll(a + b, seen) == ((sa.0 + r'.0) + [c.0], c.1);
      assert (sa.0 + r'.0) + [c.0] == sa.0 + (r'.0 + [c.0]);
    }
  }

  /** Every id handed out goes into `seen` and nothing else does: the final
      set is the initial one plus the ids, one id per heading. */
  lemma {:induction false} AssignAllSeen(slugs: seq<string>, seen: set<string>)
    ensures AssignAll(slugs, seen).1 == seen + set id | id in AssignAll(slugs, seen).0
  {
    if slugs != [] {
      var init := slugs[..|slugs| - 1];
      AssignAllSeen(init, seen);
      var ids := AssignAll(init, seen).0;
      var id := ChooseId(slugs[|slugs| - 1], AssignAll(init, seen).1).0;
      assert (set x | x in ids + [id]) == (set x | x in ids) + {id};
    }
  }

  /** The heading at position `k` receives ChooseId of its slug against the
      ids given to the headings before it. */
  lemma {:induction false} AssignAllAt(slugs: seq<string>, seen: set<string>, k: nat)
    requires k < |slugs|
    ensures AssignAll(slugs, seen).0[k] == ChooseId(slugs[k], AssignAll(slugs[..k], seen).1).0
    decreases |slugs|
  {
    var init := slugs[..|slugs| - 1];
    var r1 := AssignAll(init, seen);
    var c := ChooseId(slugs[|slugs| - 1], r1.1);
    assert AssignAll(slugs, seen).0 == r1.0 + [c.0];
    if k < |slugs| - 1 {
      AssignAllAt(init, seen, k);
      assert init[..k] == slugs[..k] && init[k] == slugs[k];
      assert (r1.0 + [c.0])[k] == r1.0[k];
    } else {
      assert slugs[..k] == init;
    }
  }

  /** No heading finds its slug and all 99 suffixed forms taken at its turn. */
  predicate NeverExhausts(slugs: seq<string>, seen: set<string>)
  {
    forall k :: 0 <= k < |slugs| ==> FreeAt(slugs, k, seen)
  }

  /** The `k`-th heading finds a free id at its turn. */
  predicate FreeAt(slugs: seq<string>, k: nat, seen: set<string>)
    requires k < |slugs|
  {
    !Exhausted(slugs[k], AssignAll(slugs[..k], seen).1)
  }

  predicate Distinct(ids: seq<string>)
  {
    forall i, j :: 0 <= i < j < |ids| ==> ids[i] != ids[j]
  }

  lemma NeverExhaustsSnoc(slugs: seq<string>, seen: set<string>)
    requires slugs != []
    ensures NeverExhausts(slugs, seen) <==>
              NeverExhausts(slugs[..|slugs| - 1], seen)
              && !Exhausted(slugs[|slugs| - 1], AssignAll(slugs[..|slugs| - 1], seen).1)
  {
    var n := |slugs| - 1;
    forall k | 0 <= k < n ensures FreeAt(slugs, k, seen) == FreeAt(slugs[..n], k, seen) {
      FreeAtPrefix(slugs, n, k, seen);
    }
    assert FreeAt(slugs, n, seen) == !Exhausted(slugs[n], AssignAll(slugs[..n], seen).1);
  }

  /** Whether a heading finds a free id depends only on the headings up to it. */
  lemma FreeAtPrefix(slugs: seq<string>, n: nat, k: nat, seen: set<string>)
    requires k < n <= |slugs|
    ensures FreeAt(slugs, k, seen) == FreeAt(slugs[..n], k, seen)
  {
    assert slugs[..n][k] == slugs[k] && slugs[..n][..k] == slugs[..k];
  }

  lemma DistinctSnoc(pre: seq<string>, id: string)
    ensures Distinct(pre + [id]) <==> Distinct(pre) && id !in pre
  {
    var ids := pre + [id];
    if Distinct(pre) && id !in pre {
      forall i, j | 0 <= i < j < |ids| ensures ids[i] != ids[j] {
        if j == |pre| { assert ids[i] == pre[i]; }
      }
    }
    if Distinct(ids) {
      assert forall i :: 0 <= i < |pre| ==> ids[i] == pre[i];
      assert forall i :: 0 <= i < |pre| ==> pre[i] != id by {
        forall i | 0 <= i < |pre| ensures pre[i] != id {
          assert ids[i] != ids[|pre|];
        }
      }
    }
  }

  /** The central invariant: the ids handed out are pairwise distinct and
      new to `seen` exactly when the suffixes are never exhausted. */
  lemma {:induction false} AssignAllDistinct(slugs: seq<string>, seen: set<string>)
    ensures NeverExhausts(slugs, seen) <==>
              Distinct(AssignAll(slugs, seen).0) && forall id :: id in AssignAll(slugs, seen).0 ==> id !in seen
  {
    if slugs != [] {
      var n := |slugs| - 1;
      var init := slugs[..n];
      var x := slugs[n];
      AssignAllDistinct(init, seen);
      AssignAllSeen(init, seen);
      NeverExhaustsSnoc(slugs, seen);
      var r1 := AssignAll(init, seen);
      var c := ChooseId(x, r1.1);
      assert AssignAll(slugs, seen).0 == r1.0 + [c.0];
      DistinctSnoc(r1.0, c.0);
      assert c.0 in r1.1 <==> c.0 in seen || c.0 in r1.0;
    }
  }

  lemma {:induction false} SomesAppend(a: seq<string>, b: seq<string>)
    ensures Somes(a + b) == Somes(a) + Somes(b)
  {
  }

  /** The tree walk hands out ids exactly as AssignAll does over the slugs of
      the headings it reaches, and every heading it reaches ends up with an
      `id` attribute whose first value is the id handed out. */
  lemma {:induction false} WalkFollowsAssign(slug: string -> string, n: Node, seen: set<string>)
    ensures HeadingIds(AnnotateNode(slug, n, seen).0) == Somes(AssignAll(HeadingSlugs(slug, n), seen).0)
    ensures AnnotateNode(slug, n, seen).1 == AssignAll(HeadingSlugs(slug, n), seen).1
    decreases n, 1
  {
    if IsHeading(n) {
      var sl := slug(NodeText(n));
      var c := ChooseId(sl, seen);
      var id := c.0;
      SetIdProperties(n.attrs, id);
      assert [sl][..0] == [] && [sl][0] == sl;
      var e: seq<string> := [];
      assert AssignAll([sl][..0], seen) == (e, seen);
      assert e + [id] == [id];
      assert AssignAll([sl], seen) == ([id], c.1);
      var ids := Somes([id]);
      assert |ids| == 1 && ids[0] == Some(id);
      assert ids == [Some(id)];
    } else if n.Element? {
      ForestWalkFollowsAssign(slug, n.children, seen);
    }
  }

  lemma {:induction false} ForestWalkFollowsAssign(slug: string -> string, cs: seq<Node>, seen: set<string>)
    ensures ForestHeadingIds(AnnotateForest(slug, cs, seen).0) == Somes(AssignAll(ForestHeadingSlugs(slug, cs), seen).0)
    ensures AnnotateForest(slug, cs, seen).1 == AssignAll(ForestHeadingSlugs(slug, cs), seen).1
    decreases cs, 0
  {
    if cs != [] {
      var init := cs[..|cs| - 1];
      var last := cs[|cs| - 1];
      ForestWalkFollowsAssign(slug, init, seen);
      var (out, s1) := AnnotateForest(slug, init, seen);
      WalkFollowsAssign(slug, last, s1);
      var (m, s2) := AnnotateNode(slug, last, s1);
      var outs := out + [m];
      assert outs[..|outs| - 1] == out && outs[|outs| - 1] == m;
      AssignAllAppend(ForestHeadingSlugs(slug, init), HeadingSlugs(slug, last), seen);
      SomesAppend(AssignAll(ForestHeadingSlugs(slug, init), seen).0,
                  AssignAll(HeadingSlugs(slug, last), s1).0);
    }
  }

  /** createAnchors on a parsed fragment: every heading the walk reaches gets
      an id, one per heading in walk order; the final `seen` set holds
      exactly these ids; and they are pairwise distinct exactly when no
      heading exhausts its 99 suffixes. */
  lemma AnchorsAreUnique(slug: string -> string, cs: seq<Node>)
    ensures var ids := AssignAll(ForestHeadingSlugs(slug, cs), {}).0;
            && ForestHeadingIds(AnnotateForest(slug, cs, {}).0) == Somes(ids)
            && AnnotateForest(slug, cs, {}).1 == set id | id in ids
            && (NeverExhausts(ForestHeadingSlugs(slug, cs), {}) <==> Distinct(ids))
  {
    ForestWalkFollowsAssign(slug, cs, {});
    AssignAllSeen(ForestHeadingSlugs(slug, cs), {});
    AssignAllDistinct(ForestHeadingSlugs(slug, cs), {});
  }

  // ------------------------------------------------- nothing else changes

  /** The tree with every `id` attribute of the headings a walk would reach
      removed: what the walk must leave untouched. */
  function EraseIds(n: Node): Node
    decreases n
  {
    if IsHeading(n) then n.(attrs := RemoveKey(n.attrs, "id"))
    else if n.Element? then n.(children := EraseForestIds(n.children))
    else n
  }

  function EraseForestIds(cs: seq<Node>): (r: seq<Node>)
    ensures |r| == |cs|
    decreases cs
  {
    if cs == [] then [] else EraseForestIds(cs[..|cs| - 1]) + [EraseIds(cs[|cs| - 1])]
  }

  /** The walk changes nothing but the `id` attributes of the headings it
      reaches: tags, other attributes (in order), text, comments, the
      children of headings, and the tree shape stay as they were. */
  lemma {:induction false} WalkOnlyTouchesIds(slug: string -> string, n: Node, seen: set<string>)
    ensures EraseIds(AnnotateNode(slug, n, seen).0) == EraseIds(n)
    decreases n, 1
  {
    if IsHeading(n) {
      SetIdProperties(n.attrs, ChooseId(slug(NodeText(n)), seen).0);
    } else if n.Element? {
      ForestWalkOnlyTouchesIds(slug, n.children, seen);
    }
  }

  lemma {:induction false} ForestWalkOnlyTouchesIds(slug: string -> string, cs: seq<Node>, seen: set<string>)
    ensures EraseForestIds(AnnotateForest(slug, cs, seen).0) == EraseForestIds(cs)
    decreases cs, 0
  {
    if cs != [] {
      var init := cs[..|cs| - 1];
      ForestWalkOnlyTouchesIds(slug, init, seen);
      var (out, s1) := AnnotateForest(slug, init, seen);
      WalkOnlyTouchesIds(slug, cs[|cs| - 1], s1);
      var outs := out + [AnnotateNode(slug, cs[|cs| - 1], s1).0];
      assert outs[..|outs| - 1] == out;
    }
  }

  // ------------------------------------------------------- createAnchors

  /** createAnchors (anchor.go:17-85): parse the input as the children of an
      `<article>`, walk the article with an empty `seen` set, and render the
      article's children (not the article itself) one after another. The
      fragment parser and the renderer are the parameters `parse` and `render`. */
  function AnchoredHtml(parse: Bytes -> Result<seq<Node>>, render: Node -> Result<Bytes>,
                        slug: string -> string, b: Bytes): Result<Bytes>
  {
    match parse(b)
    case Fail(e) => Fail(e)
    case Ok(nodes) => RenderAll(render, AnnotateNode(slug, Element("article", [], nodes), {}).0.children)
  }

  method CreateAnchors(parse: Bytes -> Result<seq<Node>>, render: Node -> Result<Bytes>,
                       slug: string -> string, b: Bytes) returns (r: Result<Bytes>)
    ensures r == AnchoredHtml(parse, render, slug, b)
    ensures parse(b).Fail? ==> r == Fail(parse(b).error)
    ensures parse(b).Ok? ==> r == RenderAll(render, AnnotateForest(slug, parse(b).value, {}).0)
  {
    var parsed := parse(b);
    if parsed.Fail? {
      return Fail(parsed.error);
    }
    var root := Element("article", [], parsed.value);
    var root', _ := Walk(slug, root, {});
    r := RenderChildren(render, root'.children);
  }

  // ----------------------------------------------------------- examples

  lemma {:induction false} DecimalSmall(i: nat)
    requires 1 <= i < 100
    ensures 1 <= |Decimal(i)| <= 2
    ensures |Decimal(i)| == 1 <==> i < 10
    ensures i < 10 ==> Decimal(i) == [Digit(i)]
    ensures i >= 10 ==> Decimal(i) == [Digit(i / 10), Digit(i % 10)]
  {
  }

  lemma DecimalInjective(i: nat, j: nat)
    requires 1 <= i < 100 && 1 <= j < 100 && i != j
    ensures Decimal(i) != Decimal(j)
  {
    DecimalSmall(i);
    DecimalSmall(j);
    if i >= 10 && j >= 10 {
      assert i == 10 * (i / 10) + i % 10 && j == 10 * (j / 10) + j % 10;
      assert i / 10 != j / 10 || i % 10 != j % 10;
      assert Digit(i / 10) != Digit(j / 10) || Digit(i % 10) != Digit(j % 10);
    }
  }

  /** Different suffixes give different candidates, and none is the bare slug. */
  lemma SuffixedInjective(slug: string, i: nat, j: nat)
    requires 1 <= i < 100 && 1 <= j < 100
    ensures Suffixed(slug, i) != slug
    ensures i != j ==> Suffixed(slug, i) != Suffixed(slug, j)
  {
    DecimalSmall(i);
    assert |Suffixed(slug, i)| > |slug|;
    if i != j {
      DecimalInjective(i, j);
      assert Suffixed(slug, i)[|slug| + 1..] == Decimal(i);
      assert Suffixed(slug, j)[|slug| + 1..] == Decimal(j);
    }
  }

  /** The slug repeated `k` times. */
  function Repeat(slug: string, k: nat): (r: seq<string>)
    ensures |r| == k && forall i :: 0 <= i < k ==> r[i] == slug
  {
    if k == 0 then [] else Repeat(slug, k - 1) + [slug]
  }

  /** The ids taken after `k` headings with the same slug: the bare slug and
      its first `k - 1` suffixed forms. */
  function Taken(slug: string, k: nat): set<string>
  {
    if k == 0 then {} else if k == 1 then {slug} else Taken(slug, k - 1) + {Suffixed(slug, k - 1)}
  }

  lemma {:induction false} TakenMembers(slug: string, k: nat)
    requires k <= 100
    ensures k > 0 ==> slug in Taken(slug, k)
    ensures forall j :: 1 <= j < k ==> Suffixed(slug, j) in Taken(slug, k)
  {
    if k > 1 {
      TakenMembers(slug, k - 1);
      assert Taken(slug, k) == Taken(slug, k - 1) + {Suffixed(slug, k - 1)};
    }
  }

  lemma {:induction false} TakenFresh(slug: string, k: nat, m: nat)
    requires k <= m < 100
    ensures Suffixed(slug, m) !in Taken(slug, k)
  {
    if k == 1 {
      SuffixedInjective(slug, m, m);
    } else if k > 1 {
      TakenFresh(slug, k - 1, m);
      SuffixedInjective(slug, k - 1, m);
    }
  }

  lemma RepeatStep(slug: string, k: nat)
    requires 1 <= k <= 100
    ensures ChooseId(slug, Taken(slug, k - 1)) == (if k == 1 then slug else Suffixed(slug, k - 1), Taken(slug, k))
  {
    if k > 1 {
      var s1 := Taken(slug, k - 1);
      TakenMembers(slug, k - 1);
      TakenFresh(slug, k - 1, k - 1);
      var f := FreeSuffix(slug, s1, 1);
      assert Suffixed(slug, k - 1) !in s1;
      assert f < 100 ==> Suffixed(slug, f) !in s1;
      assert f == k - 1;
      assert slug in s1;
      assert ChooseId(slug, s1) == (Suffixed(slug, k - 1), s1 + {Suffixed(slug, k - 1)});
      assert Taken(slug, k) == s1 + {Suffixed(slug, k - 1)};
    } else {
      assert Taken(slug, 0) == {} && Taken(slug, 1) == {slug};
      var none: set<string> := {};
      var r := ChooseId(slug, none);
      assert r.0 == slug;
      assert r.1 == {slug};
    }
  }

  /** `k` headings (at most 100) with the same slug in a fresh document get
      the bare slug, then `slug-1`, `slug-2`, ... in order, and the `seen`
      set then holds the bare slug and the first `k - 1` suffixed forms. */
  lemma {:induction false} RepeatedSlug(slug: string, k: nat)
    requires k <= 100
    ensures |AssignAll(Repeat(slug, k), {}).0| == k
    ensures forall i :: 0 <= i < k ==>
              AssignAll(Repeat(slug, k), {}).0[i] == if i == 0 then slug else Suffixed(slug, i)
    ensures AssignAll(Repeat(slug, k), {}).1 == Taken(slug, k)
  {
    if k > 0 {
      RepeatedSlug(slug, k - 1);
      var slugs := Repeat(slug, k);
      assert slugs[..k - 1] == Repeat(slug, k - 1) && slugs[k - 1] == slug;
      var r1 := AssignAll(Repeat(slug, k - 1), {});
      var c := ChooseId(slug, r1.1);
      assert AssignAll(slugs, {}) == (r1.0 + [c.0], c.1);
      RepeatStep(slug, k);
      assert c == (if k == 1 then slug else Suffixed(slug, k - 1), Taken(slug, k));
      RepeatIdsSnoc(slug, r1.0, c.0, k);
    }
  }

  /** One more id at the end of the list `slug`, `slug-1`, ... */
  lemma RepeatIdsSnoc(slug: string, ids: seq<string>, id: string, k: nat)
    requires 1 <= k && |ids| == k - 1
    requires forall i :: 0 <= i < k - 1 ==> ids[i] == if i == 0 then slug else Suffixed(slug, i)
    requires id == if k == 1 then slug else Suffixed(slug, k - 1)
    ensures forall i :: 0 <= i < k ==> (ids + [id])[i] == if i == 0 then slug else Suffixed(slug, i)
  {
  }

  /** The first heading of anchor_test.go:5-15 in a fresh document keeps its
      `class` and gets `id="some-header"` appended. */
  lemma ExampleFirstHeading(slug: string -> string)
    requires slug("Some header") == "some-header"
    ensures AnnotateNode(slug, Element("h1", [Attr("", "class", "foo")], [Text("Some "), Element("span", [], [Text("header")])]), {})
         == (Element("h1", [Attr("", "class", "foo"), Attr("", "id", "some-header")],
                     [Text("Some "), Element("span", [], [Text("header")])]), {"some-header"})
  {
    var h1 := Element("h1", [Attr("", "class", "foo")], [Text("Some "), Element("span", [], [Text("header")])]);
    assert NodeText(h1) == "Some header" by {
      assert [Text("Some "), Element("span", [], [Text("header")])][..1] == [Text("Some ")];
      assert [Text("header")][..0] == [];
    }
    var e: set<string> := {};
    var s1: set<string> := {"some-header"};
    assert FindKey([Attr("", "class", "foo")], "id") == 1;
    assert ChooseId("some-header", e) == ("some-header", s1) by {
      var r := ChooseId("some-header", e);
      assert r.0 == "some-header" && r.1 == s1;
    }
    assert IsHeading(h1);
    assert slug(NodeText(h1)) == "some-header";
    assert SetId(h1.attrs, "some-header") == [Attr("", "class", "foo"), Attr("", "id", "some-header")];
  }

  /** The paragraph is walked and left as it was. */
  lemma ExampleParagraph(slug: string -> string, seen: set<string>)
    ensures AnnotateNode(slug, Element("p", [], [Text("Text")]), seen) == (Element("p", [], [Text("Text")]), seen)
  {
    ForestSnoc(slug, [], Text("Text"), seen);
    assert [] + [Text("Text")] == [Text("Text")];
  }

  /** The second heading, whose slug is taken, gets `some-header-1`. */
  lemma ExampleSecondHeading(slug: string -> string)
    requires slug("some header") == "some-header"
    ensures AnnotateNode(slug, Element("h2", [], [Text("some header")]), {"some-header"})
         == (Element("h2", [Attr("", "id", "some-header-1")], [Text("some header")]), {"some-header", "some-header-1"})
  {
    var h2 := Element("h2", [], [Text("some header")]);
    assert NodeText(h2) == "some header" by {
      assert [Text("some header")][..0] == [];
    }
    var s1: set<string> := {"some-header"};
    assert Suffixed("some-header", 1) == "some-header-1";
    assert "some-header-1" !in s1;
    var s2: set<string> := {"some-header", "some-header-1"};
    assert ChooseId("some-header", s1) == ("some-header-1", s2) by {
      assert FreeSuffix("some-header", s1, 1) == 1;
      var r := ChooseId("some-header", s1);
      assert r.0 == "some-header-1" && r.1 == s2;
    }
    assert IsHeading(h2);
    assert slug(NodeText(h2)) == "some-header";
    assert FindKey(h2.attrs, "id") == 0;
    assert SetId(h2.attrs, "some-header-1") == [Attr("", "id", "some-header-1")];
  }

  /** anchor_test.go:5-15: `<h1 class="foo">Some <span>header</span></h1>
      <p>Text</p><h2>some header</h2>` gets ids `some-header` and
      `some-header-1`, when both heading texts slug to `some-header`. */
  lemma AnchorExample(slug: string -> string)
    requires slug("Some header") == "some-header" && slug("some header") == "some-header"
    ensures AnnotateForest(slug, [
                Element("h1", [Attr("", "class", "foo")], [Text("Some "), Element("span", [], [Text("header")])]),
                Element("p", [], [Text("Text")]),
                Element("h2", [], [Text("some header")])], {}).0
         == [
                Element("h1", [Attr("", "class", "foo"), Attr("", "id", "some-header")],
                        [Text("Some "), Element("span", [], [Text("header")])]),
                Element("p", [], [Text("Text")]),
                Element("h2", [Attr("", "id", "some-header-1")], [Text("some header")])]
  {
    var h1 := Element("h1", [Attr("", "class", "foo")], [Text("Some "), Element("span", [], [Text("header")])]);
    var p := Element("p", [], [Text("Text")]);
    var h2 := Element("h2", [], [Text("some header")]);
    var h1' := Element("h1", [Attr("", "class", "foo"), Attr("", "id", "some-header")],
                       [Text("Some "), Element("span", [], [Text("header")])]);
    var h2' := Element("h2", [Attr("", "id", "some-header-1")], [Text("some header")]);
    var e: set<string> := {};
    var s1: set<string> := {"some-header"};
    ExampleFirstHeading(slug);
    ExampleParagraph(slug, s1);
    ExampleSecondHeading(slug);
    ForestSnoc(slug, [], h1, e);
    assert [] + [h1] == [h1] && [] + [h1'] == [h1'];
    ForestSnoc(slug, [h1], p, e);
    assert [h1] + [p] == [h1, p] && [h1'] + [p] == [h1', p];
    ForestSnoc(slug, [h1, p], h2, e);
    assert [h1, p] + [h2] == [h1, p, h2] && [h1', p] + [h2'] == [h1', p, h2'];
  }
}

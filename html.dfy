/** The abstract view of HTML that the pipeline works on: the token stream of
    an HTML tokenizer, and the node tree of a fragment parser. The tokenizer,
    the parser and the renderer themselves are library code outside this
    model; they appear as function-typed parameters where they are used. */
module Html {
  import opened Common

  /** An attribute of an element: namespace (empty except in foreign
      content), key and value. */
  datatype Attr = Attr(namespace: string, key: string, val: string)

  /** A parsed node. Tag names are lower-case, as the parser produces them. */
  datatype Node =
    | Element(tag: string, attrs: seq<Attr>, children: seq<Node>)
    | Text(data: string)
    | Comment(data: string)

  /** One token of the tokenizer. `EofToken` is the error token whose error is
      end of input; `ErrorToken` is the error token for any other error. */
  datatype Token =
    | TextToken(text: string)
    | StartTag(name: string)
    | EndTag(name: string)
    | SelfClosingTag(name: string)
    | CommentToken
    | DoctypeToken
    | EofToken
    | ErrorToken(error: Error)

  /** Index of the first attribute whose key is `key`, or `|attrs|` if none. */
  function FindKey(attrs: seq<Attr>, key: string): (k: nat)
    ensures k <= |attrs|
    ensures k < |attrs| ==> attrs[k].key == key
    ensures forall i :: 0 <= i < k ==> attrs[i].key != key
  {
    if attrs == [] then 0
    else if attrs[0].key == key then 0
    else 1 + FindKey(attrs[1..], key)
  }

  /** Two attribute lists with the same keys in the same places have their
      first `key` in the same place. */
  lemma FindKeySameKeys(a: seq<Attr>, b: seq<Attr>, key: string)
    requires |a| == |b| && forall i :: 0 <= i < |a| ==> a[i].key == b[i].key
    ensures FindKey(a, key) == FindKey(b, key)
  {
    var ka := FindKey(a, key);
    var kb := FindKey(b, key);
    assert ka < |a| ==> b[ka].key == key;
    assert kb < |b| ==> a[kb].key == key;
  }

  /** Number of attributes whose key is `key`. */
  function CountKey(attrs: seq<Attr>, key: string): nat
  {
    if attrs == [] then 0
    else (if attrs[0].key == key then 1 else 0) + CountKey(attrs[1..], key)
  }

  /** The attributes whose key is not `key`, in their original order. */
  function RemoveKey(attrs: seq<Attr>, key: string): seq<Attr>
  {
    if attrs == [] then []
    else (if attrs[0].key == key then [] else [attrs[0]]) + RemoveKey(attrs[1..], key)
  }

  lemma {:induction false} CountKeyAppend(a: seq<Attr>, b: seq<Attr>, key: string)
    ensures CountKey(a + b, key) == CountKey(a, key) + CountKey(b, key)
    ensures RemoveKey(a + b, key) == RemoveKey(a, key) + RemoveKey(b, key)
  {
    if a == [] {
      assert a + b == b;
    } else {
      assert (a + b)[1..] == a[1..] + b;
      CountKeyAppend(a[1..], b, key);
    }
  }

  /** A key is absent exactly when it counts zero times; removing an absent
      key changes nothing. */
  lemma {:induction false} AbsentKey(attrs: seq<Attr>, key: string)
    ensures FindKey(attrs, key) == |attrs| <==> CountKey(attrs, key) == 0
    ensures FindKey(attrs, key) == |attrs| ==> RemoveKey(attrs, key) == attrs
  {
    if attrs != [] {
      AbsentKey(attrs[1..], key);
      assert [attrs[0]] + attrs[1..] == attrs;
    }
  }

  /** Counting and removing a key only look at the keys: replacing the value
      of one attribute with that key changes neither. */
  lemma ReplaceValueKeepsKeys(attrs: seq<Attr>, k: nat, v: string)
    requires k < |attrs|
    ensures CountKey(attrs[k := attrs[k].(val := v)], attrs[k].key) == CountKey(attrs, attrs[k].key)
    ensures RemoveKey(attrs[k := attrs[k].(val := v)], attrs[k].key) == RemoveKey(attrs, attrs[k].key)
  {
    var b := attrs[k := attrs[k].(val := v)];
    if k > 0 {
      assert b[1..] == attrs[1..][k - 1 := attrs[k].(val := v)];
      ReplaceValueKeepsKeys(attrs[1..], k - 1, v);
    } else {
      assert b[1..] == attrs[1..];
    }
  }

  /** Go's loop `for c := root.FirstChild; ...; html.Render(out, c)`: the
      renderings of `cs` concatenated, or the first rendering error. */
  function RenderAll(render: Node -> Result<Bytes>, cs: seq<Node>): (r: Result<Bytes>)
    ensures r.Ok? <==> forall i :: 0 <= i < |cs| ==> render(cs[i]).Ok?
  {
    if cs == [] then Ok([])
    else match render(cs[0])
      case Fail(e) => Fail(e)
      case Ok(b) =>
        match RenderAll(render, cs[1..])
        case Fail(e) => Fail(e)
        case Ok(rest) => Ok(b + rest)
  }

  /** The render loop of createAnchors and rewriteLinks. */
  method RenderChildren(render: Node -> Result<Bytes>, cs: seq<Node>) returns (r: Result<Bytes>)
    ensures r == RenderAll(render, cs)
  {
    var out: Bytes := [];
    var i := 0;
    assert cs[i..] == cs;
    assert forall x: Result<Bytes> :: Prepend([], x) == x by {
      forall x: Result<Bytes> ensures Prepend([], x) == x {
        if x.Ok? { assert [] + x.value == x.value; }
      }
    }
    while i < |cs|
      invariant 0 <= i <= |cs|
      invariant RenderAll(render, cs) == Prepend(out, RenderAll(render, cs[i..]))
    {
      assert cs[i..][0] == cs[i] && cs[i..][1..] == cs[i + 1..];
      match render(cs[i])
      case Fail(e) =>
        return Fail(e);
      case Ok(b) =>
        assert Prepend(out, RenderAll(render, cs[i..])) == Prepend(out + b, RenderAll(render, cs[i + 1..])) by {
          if RenderAll(render, cs[i + 1..]).Ok? {
            assert out + (b + RenderAll(render, cs[i + 1..]).value) == (out + b) + RenderAll(render, cs[i + 1..]).value;
          }
        }
        out := out + b;
        i := i + 1;
    }
    assert cs[i..] == [] && out + [] == out;
    r := Ok(out);
  }

  function Prepend(out: Bytes, r: Result<Bytes>): Result<Bytes>
  {
    match r
    case Fail(e) => Fail(e)
    case Ok(b) => Ok(out + b)
  }
}

/** The first-heading extractor of heading.go: a scan of a token stream that
    returns the text of the first `<h1>` element.

    The scan stops at the first token that `Ends` it: the end of input, a
    tokenizer error, or an `h1` end tag. The text returned is that of the text
    tokens strictly between the first `h1` start tag before that point and
    the point itself; every other tag is ignored. */
module Heading {
  import opened Common
  import opened Html

  /** Tokens at which the scan returns (heading.go:23-27, 39-40). */
  predicate Ends(t: Token)
  {
    t.EofToken? || t.ErrorToken? || t == EndTag("h1")
  }

  /** The token that switches the scan into the heading (heading.go:37-38). */
  predicate Opens(t: Token)
  {
    t == StartTag("h1")
  }

  /** Index of the first token that ends the scan, or `|ts|` if none does. */
  function EndIndex(ts: seq<Token>): (k: nat)
    ensures k <= |ts|
    ensures k < |ts| ==> Ends(ts[k])
    ensures forall i :: 0 <= i < k ==> !Ends(ts[i])
  {
    if ts == [] then 0
    else if Ends(ts[0]) then 0
    else 1 + EndIndex(ts[1..])
  }

  /** Index of the first `h1` start tag, or `|ts|` if there is none. */
  function OpenIndex(ts: seq<Token>): (k: nat)
    ensures k <= |ts|
    ensures k < |ts| ==> Opens(ts[k])
    ensures forall i :: 0 <= i < k ==> !Opens(ts[i])
  {
    if ts == [] then 0
    else if Opens(ts[0]) then 0
    else 1 + OpenIndex(ts[1..])
  }

  /** The text of the text tokens of `ts`, concatenated in order. */
  function TextOf(ts: seq<Token>): string
  {
    if ts == [] then ""
    else (if ts[0].TextToken? then ts[0].text else "") + TextOf(ts[1..])
  }

  /** What firstHeading returns for the token stream `ts`. A stream that runs
      out without an end-of-input token is read as if it ended with one. */
  function FirstHeadingSpec(ts: seq<Token>): Result<string>
  {
    var e := EndIndex(ts);
    if e == |ts| || ts[e].EofToken? then Ok("")
    else if ts[e].ErrorToken? then Fail(ts[e].error)
    else
      var s := OpenIndex(ts);
      if s >= e then Ok("") else Ok(TextOf(ts[s + 1..e]))
  }

  lemma {:induction false} EndIndexAppend(a: seq<Token>, b: seq<Token>)
    ensures EndIndex(a + b) == if EndIndex(a) < |a| then EndIndex(a) else |a| + EndIndex(b)
  {
    if a == [] {
      assert a + b == b;
    } else {
      assert (a + b)[0] == a[0] && (a + b)[1..] == a[1..] + b;
      EndIndexAppend(a[1..], b);
    }
  }

  lemma {:induction false} OpenIndexAppend(a: seq<Token>, b: seq<Token>)
    ensures OpenIndex(a + b) == if OpenIndex(a) < |a| then OpenIndex(a) else |a| + OpenIndex(b)
  {
    if a == [] {
      assert a + b == b;
    } else {
      assert (a + b)[0] == a[0] && (a + b)[1..] == a[1..] + b;
      OpenIndexAppend(a[1..], b);
    }
  }

  lemma {:induction false} TextOfAppend(a: seq<Token>, b: seq<Token>)
    ensures TextOf(a + b) == TextOf(a) + TextOf(b)
  {
    if a == [] {
      assert a + b == b;
    } else {
      assert (a + b)[0] == a[0] && (a + b)[1..] == a[1..] + b;
      TextOfAppend(a[1..], b);
    }
  }

  /** One more token inside the heading opened at `s`: its text, if any, is
      appended. */
  lemma ScanInside(ts: seq<Token>, i: nat, s: nat)
    requires s < i < |ts|
    ensures TextOf(ts[s + 1..i + 1]) == TextOf(ts[s + 1..i]) + (if ts[i].TextToken? then ts[i].text else "")
  {
    assert ts[s + 1..i + 1] == ts[s + 1..i] + [ts[i]];
    TextOfAppend(ts[s + 1..i], [ts[i]]);
  }

  /** The token loop of firstHeading (heading.go:15-45): an `inHeading` flag
      and a text accumulator updated token by token. */
  method FirstHeading(ts: seq<Token>) returns (r: Result<string>)
    ensures r == FirstHeadingSpec(ts)
  {
    ghost var e := EndIndex(ts);
    ghost var s := OpenIndex(ts);
    var text := "";
    var inHeading := false;
    var i := 0;
    while i < |ts|
      invariant 0 <= i <= e
      invariant inHeading <==> s < i
      invariant inHeading ==> text == TextOf(ts[s + 1..i])
      invariant !inHeading ==> text == ""
    {
      var t := ts[i];
      if t.EofToken? {
        return Ok("");
      } else if t.ErrorToken? {
        return Fail(t.error);
      } else if t == EndTag("h1") {
        return Ok(text);
      }
      if inHeading {
        ScanInside(ts, i, s);
        if t.TextToken? {
          text := text + t.text;
        }
      } else if t == StartTag("h1") {
        assert ts[i + 1..i + 1] == [];
        inHeading := true;
      }
      i := i + 1;
    }
    r := Ok("");
  }

  /** The main property: after a prefix holding no `h1` tag and nothing that
      ends the scan, the result is the text of the text tokens between the
      first `<h1>` and the next `</h1>`. Text inside nested inline tags is
      kept, any other tag (an `h2`, a `<span>`, a repeated `<h1>`) is skipped,
      and whatever follows the `</h1>` is never read. */
  lemma HeadingText(pre: seq<Token>, body: seq<Token>, post: seq<Token>)
    requires forall i :: 0 <= i < |pre| ==> !Ends(pre[i]) && !Opens(pre[i])
    requires forall i :: 0 <= i < |body| ==> !Ends(body[i])
    ensures FirstHeadingSpec(pre + [StartTag("h1")] + body + [EndTag("h1")] + post) == Ok(TextOf(body))
  {
    var ts := pre + [StartTag("h1")] + body + [EndTag("h1")] + post;
    var e := |pre| + 1 + |body|;
    EndAfterBody(pre, body, post);
    OpenAfterPrefix(pre, body, post);
    BodySlice(pre, body, post);
    ClosedHeading(ts, |pre|, e, body);
  }

  /** The scan of a heading stream ends at the `</h1>` just after the body. */
  lemma EndAfterBody(pre: seq<Token>, body: seq<Token>, post: seq<Token>)
    requires forall i :: 0 <= i < |pre| ==> !Ends(pre[i])
    requires forall i :: 0 <= i < |body| ==> !Ends(body[i])
    ensures var ts := pre + [StartTag("h1")] + body + [EndTag("h1")] + post;
      EndIndex(ts) == |pre| + 1 + |body| < |ts| && ts[|pre| + 1 + |body|] == EndTag("h1")
  {
    var a := pre + [StartTag("h1")];
    var h := a + body;
    var c := h + [EndTag("h1")];
    assert EndIndex(pre) == |pre|;
    assert EndIndex(body) == |body|;
    EndIndexAppend(pre, [StartTag("h1")]);
    EndIndexAppend(a, body);
    EndIndexAppend(h, [EndTag("h1")]);
    EndIndexAppend(c, post);
  }

  /** After a prefix with no `<h1>`, the first `<h1>` is the one that
      follows it. */
  lemma OpenAfterPrefix(pre: seq<Token>, body: seq<Token>, post: seq<Token>)
    requires forall i :: 0 <= i < |pre| ==> !Opens(pre[i])
    ensures OpenIndex(pre + [StartTag("h1")] + body + [EndTag("h1")] + post) == |pre|
  {
    var rest := [StartTag("h1")] + body + [EndTag("h1")] + post;
    Regroup(pre, [StartTag("h1")], body, [EndTag("h1")], post);
    assert OpenIndex(pre) == |pre|;
    OpenIndexAppend(pre, rest);
    assert rest[0] == StartTag("h1");
  }

  lemma BodySlice(pre: seq<Token>, body: seq<Token>, post: seq<Token>)
    ensures var ts := pre + [StartTag("h1")] + body + [EndTag("h1")] + post;
      |pre| + 1 + |body| <= |ts| && ts[|pre| + 1..|pre| + 1 + |body|] == body
  {
  }

  lemma Regroup(a: seq<Token>, b: seq<Token>, c: seq<Token>, d: seq<Token>, e: seq<Token>)
    ensures a + b + c + d + e == a + (b + c + d + e)
  {
  }

  /** A stream whose scan ends at an `</h1>` after its first `<h1>`. */
  lemma ClosedHeading(ts: seq<Token>, s: nat, e: nat, body: seq<Token>)
    requires EndIndex(ts) == e < |ts| && ts[e] == EndTag("h1")
    requires OpenIndex(ts) == s < e && ts[s + 1..e] == body
    ensures FirstHeadingSpec(ts) == Ok(TextOf(body))
  {
  }

  /** Reaching the end of input, or a tokenizer error, before any `</h1>`
      gives `""` (no error) or that error, even after an `<h1>` was opened and
      text collected; a stream with nothing that ends the scan gives `""`. */
  lemma StopsBeforeClose(pre: seq<Token>, t: Token, post: seq<Token>)
    requires forall i :: 0 <= i < |pre| ==> !Ends(pre[i])
    requires t.EofToken? || t.ErrorToken?
    ensures FirstHeadingSpec(pre + [t] + post) == if t.EofToken? then Ok("") else Fail(t.error)
    ensures FirstHeadingSpec(pre) == Ok("")
  {
    assert pre + [t] + post == pre + ([t] + post);
    EndIndexAppend(pre, [t] + post);
  }

  /** An `</h1>` seen before any `<h1>` returns `""` at once. */
  lemma CloseBeforeOpen(pre: seq<Token>, post: seq<Token>)
    requires forall i :: 0 <= i < |pre| ==> !Ends(pre[i]) && !Opens(pre[i])
    ensures FirstHeadingSpec(pre + [EndTag("h1")] + post) == Ok("")
  {
    var ts := pre + [EndTag("h1")] + post;
    assert ts == pre + ([EndTag("h1")] + post);
    EndIndexAppend(pre, [EndTag("h1")] + post);
    OpenIndexAppend(pre, [EndTag("h1")] + post);
  }

  /** heading_test.go:5-15: the tokens of
      `<body><p>Text</p><h1>Header <span>text</span></h1>` give "Header text". */
  lemma HeadingExample()
    ensures FirstHeadingSpec([StartTag("body"), StartTag("p"), TextToken("Text"), EndTag("p"),
                              StartTag("h1"), TextToken("Header "), StartTag("span"), TextToken("text"),
                              EndTag("span"), EndTag("h1"), EofToken]) == Ok("Header text")
  {
    var pre := [StartTag("body"), StartTag("p"), TextToken("Text"), EndTag("p")];
    var body := [TextToken("Header "), StartTag("span"), TextToken("text"), EndTag("span")];
    HeadingText(pre, body, [EofToken]);
    ExampleBodyText();
    assert pre + [StartTag("h1")] + body + [EndTag("h1")] + [EofToken]
        == [StartTag("body"), StartTag("p"), TextToken("Text"), EndTag("p"),
            StartTag("h1"), TextToken("Header "), StartTag("span"), TextToken("text"),
            EndTag("span"), EndTag("h1"), EofToken];
  }

  lemma ExampleBodyText()
    ensures TextOf([TextToken("Header "), StartTag("span"), TextToken("text"), EndTag("span")]) == "Header text"
  {
  }
}

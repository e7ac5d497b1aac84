/** Rendering single pages and directory indexes (main.go): page titles from
    file names, the latest template mtime, the mtime stamped on rendered
    pages, renderFile and renderIndex.

    Everything that touches the filesystem, runs a converter or executes a
    template is a field of `Env`; the model keeps only what each call
    returns (a value or an error) and what is written where. */
module Render {
  import opened Common
  import opened Html
  import opened Heading
  import opened Anchor

  /** A cleaned absolute path as its segments: `[]` is the root "/". */
  type Path = seq<string>

  /** `filepath.Base`: the last segment, "/" for the root. */
  function Base(p: Path): string
  {
    if p == [] then "/" else p[|p| - 1]
  }

  /** `filepath.Dir`: all but the last segment; the root is its own parent. */
  function Dir(p: Path): Path
  {
    if p == [] then [] else p[..|p| - 1]
  }

  /** An entry of a directory index (main.go:226-230). `src` is the source
      path of a page, and `[]` for a category. */
  datatype PageMeta = PageMeta(title: string, dst: string, src: Path)

  /** The value a template is executed with (main.go:391-396). */
  datatype Page = Page(title: string, content: Bytes, pages: seq<PageMeta>, categories: seq<PageMeta>)

  /** A file the build leaves in the output tree: a written file with the
      modification time it is stamped with (`None` when the source could not
      be stat'ed and the time is left alone), or a copy of a source file. */
  datatype Output =
    | Wrote(path: Path, content: Bytes, stamp: Option<int>)
    | Copied(dst: Path, src: Path)

  /** The effects the build depends on. Times are integers; `ZeroTime` is
      Go's zero `time.Time`. A field of type `Option<Error>` gives the error,
      if any, of an operation that returns nothing else. */
  datatype Env = Env(
    abs: string -> Result<Path>,                // filepath.Abs
    parseTemplates: Path -> Option<Error>,      // template.ParseGlob
    glob: Path -> Result<seq<Path>>,            // filepath.Glob
    stat: Path -> Result<int>,                  // os.Stat(..).ModTime()
    readFile: Path -> Result<Bytes>,            // opening and reading a source
    hasCmark: bool,                             // exec.LookPath(gfmBinary) succeeds
    cmark: Bytes -> Result<Bytes>,              // the cmark-gfm process
    goldmark: Bytes -> Result<Bytes>,           // goldmark's Convert
    parseFragment: Bytes -> Result<seq<Node>>,  // html.ParseFragment in an <article>
    renderNode: Node -> Result<Bytes>,          // html.Render
    slug: string -> string,                     // anchor.Create
    tokenize: Bytes -> seq<Token>,              // html.NewTokenizer
    execute: Page -> Result<Bytes>,             // tpl.Execute
    writeFile: (Path, Bytes) -> Option<Error>,  // ioutil.WriteFile (after os.MkdirAll for a page)
    copyFile: (Path, Path) -> Option<Error>)    // copyFile past its first check

  const ZeroTime: int := 0

  // ------------------------------------------------------------ titles

  /** `strings.NewReplacer("-", " ").Replace`. */
  function ReplaceHyphens(s: string): (r: string)
    ensures |r| == |s|
    ensures forall i :: 0 <= i < |s| ==> r[i] == if s[i] == '-' then ' ' else s[i]
  {
    if s == [] then [] else ReplaceHyphens(s[..|s| - 1]) + [if s[|s| - 1] == '-' then ' ' else s[|s| - 1]]
  }

  /** A one-character substring is a member. */
  lemma {:induction false} ContainsChar(s: string, c: char)
    ensures Contains(s, [c]) <==> c in s
  {
    if s != [] {
      ContainsChar(s[1..], c);
      assert s == [s[0]] + s[1..];
    }
  }

  /** fileNameToTitle (main.go:450-455). */
  function FileNameToTitle(name: string): string
  {
    var t := TrimSuffix(name, MdSuffix);
    if Contains(name, " ") then t else ReplaceHyphens(t)
  }

  /** The title is the name without its ".md"; a name with a space is kept as
      it is, and in a name without one every hyphen, and nothing else,
      becomes a space. */
  lemma TitleOfName(name: string)
    ensures HasSuffix(name, MdSuffix) ==> |FileNameToTitle(name)| + |MdSuffix| == |name|
    ensures !HasSuffix(name, MdSuffix) ==> |FileNameToTitle(name)| == |name|
    ensures ' ' in name ==> FileNameToTitle(name) == name[..|FileNameToTitle(name)|]
    ensures ' ' !in name ==> '-' !in FileNameToTitle(name)
    ensures ' ' !in name ==> forall i :: 0 <= i < |FileNameToTitle(name)| ==>
              (FileNameToTitle(name)[i] == ' ' <==> name[i] == '-')
              && (name[i] != '-' ==> FileNameToTitle(name)[i] == name[i])
  {
    ContainsChar(name, ' ');
    var t := TrimSuffix(name, MdSuffix);
    assert t == name[..|t|];
  }

  /** A name without a space: hyphens become spaces and ".md" goes. */
  lemma TitleOfHyphenatedName()
    ensures FileNameToTitle("go-notes.md") == "go notes"
  {
    var name := "go-notes.md";
    assert ' ' !in name by {
      assert name == ['g', 'o', '-', 'n', 'o', 't', 'e', 's', '.', 'm', 'd'];
    }
    assert name[8..] == MdSuffix;
    TitleOfName(name);
    var t := FileNameToTitle(name);
    assert |t| == 8;
    assert forall i :: 0 <= i < 8 ==> t[i] == "go notes"[i];
  }

  /** A name with a space keeps its hyphens. */
  lemma TitleOfSpacedName()
    ensures FileNameToTitle("my notes-2.md") == "my notes-2"
  {
    ContainsChar("my notes-2.md", ' ');
    assert "my notes-2.md"[2] == ' ';
    assert "my notes-2.md"[..10] == "my notes-2";
  }

  /** The title a page gets: the first `<h1>` text of its HTML when that is
      read without error and is not empty, `fallback` otherwise
      (main.go:293-296 and 342-347). */
  function HeadingOr(tokenize: Bytes -> seq<Token>, html: Bytes, fallback: string): (r: string)
    ensures r == fallback || (r != "" && FirstHeadingSpec(tokenize(html)) == Ok(r))
    ensures FirstHeadingSpec(tokenize(html)).Ok? && FirstHeadingSpec(tokenize(html)).value != "" ==>
              r == FirstHeadingSpec(tokenize(html)).value
  {
    var h := FirstHeadingSpec(tokenize(html));
    if h.Ok? && h.value != "" then h.value else fallback
  }

  // ------------------------------------------------------- modification times

  /** The latest mtime of `names` (main.go:437-446), or the first stat error. */
  function LatestOf(stat: Path -> Result<int>, names: seq<Path>): (r: Result<int>)
    ensures r.Ok? <==> forall i :: 0 <= i < |names| ==> stat(names[i]).Ok?
    ensures r.Ok? ==> r.value >= ZeroTime && forall i :: 0 <= i < |names| ==> stat(names[i]).value <= r.value
  {
    if names == [] then Ok(ZeroTime)
    else match LatestOf(stat, names[..|names| - 1])
      case Fail(e) => Fail(e)
      case Ok(t) =>
        match stat(names[|names| - 1])
        case Fail(e) => Fail(e)
        case Ok(m) => Ok(if m > t then m else t)
  }

  /** The latest mtime is the zero time or one of the mtimes; an error is
      the error of the first file that cannot be stat'ed. */
  lemma {:induction false} LatestIsAttained(stat: Path -> Result<int>, names: seq<Path>)
    ensures LatestOf(stat, names).Ok? ==>
              LatestOf(stat, names).value == ZeroTime
              || exists i :: 0 <= i < |names| && stat(names[i]) == Ok(LatestOf(stat, names).value)
    ensures LatestOf(stat, names).Fail? ==>
              exists k :: 0 <= k < |names| && stat(names[k]) == Fail(LatestOf(stat, names).error)
                          && forall i :: 0 <= i < k ==> stat(names[i]).Ok?
  {
    if names != [] {
      var init := names[..|names| - 1];
      var n := |names| - 1;
      LatestIsAttained(stat, init);
      assert forall i :: 0 <= i < n ==> init[i] == names[i];
      var r := LatestOf(stat, names);
      if LatestOf(stat, init).Fail? {
        var k :| 0 <= k < n && stat(init[k]) == Fail(LatestOf(stat, init).error)
                 && forall i :: 0 <= i < k ==> stat(init[i]).Ok?;
        assert stat(names[k]) == Fail(r.error);
      } else if stat(names[n]).Fail? {
        assert stat(names[n]) == Fail(r.error);
      } else if r.Ok? && r.value != ZeroTime && r.value != stat(names[n]).value {
        var t := LatestOf(stat, init).value;
        assert r.value == t;
        var k :| 0 <= k < n && stat(init[k]) == Ok(t);
        assert stat(names[k]) == Ok(r.value);
      }
    }
  }

  /** The loop stops at an error: once a prefix fails, so does the whole. */
  lemma {:induction false} LatestOfFails(stat: Path -> Result<int>, names: seq<Path>, i: nat)
    requires i <= |names| && LatestOf(stat, names[..i]).Fail?
    ensures LatestOf(stat, names) == LatestOf(stat, names[..i])
    decreases |names| - i
  {
    if i < |names| {
      assert names[..i + 1][..i] == names[..i];
      LatestOfFails(stat, names, i + 1);
    } else {
      assert names[..i] == names;
    }
  }

  /** latestMtime (main.go:432-448) on the template pattern `pat`. */
  function LatestMtimeSpec(glob: Path -> Result<seq<Path>>, stat: Path -> Result<int>, pat: Path): Result<int>
  {
    match glob(pat)
    case Fail(e) => Fail(e)
    case Ok(names) => LatestOf(stat, names)
  }

  method LatestMtime(glob: Path -> Result<seq<Path>>, stat: Path -> Result<int>, pat: Path) returns (r: Result<int>)
    ensures r == LatestMtimeSpec(glob, stat, pat)
  {
    var names := glob(pat);
    if names.Fail? {
      return Fail(names.error);
    }
    var ns := names.value;
    var mtime := ZeroTime;
    for i := 0 to |ns|
      invariant LatestOf(stat, ns[..i]) == Ok(mtime)
    {
      assert ns[..i + 1][..i] == ns[..i];
      var fi := stat(ns[i]);
      if fi.Fail? {
        LatestOfFails(stat, ns, i + 1);
        return Fail(fi.error);
      }
      if fi.value > mtime {
        mtime := fi.value;
      }
    }
    assert ns[..|ns|] == ns;
    r := Ok(mtime);
  }

  /** The time renderFile stamps on its output (main.go:311-316): the later
      of `mtime` and the source's mtime, or nothing when the source cannot
      be stat'ed. */
  function Stamp(mtime: int, src: Result<int>): (r: Option<int>)
    ensures src.Fail? <==> r.None?
    ensures src.Ok? ==> r.value >= mtime && r.value >= src.value && (r.value == mtime || r.value == src.value)
  {
    match src
    case Fail(_) => None
    case Ok(m) => Some(if m > mtime then m else mtime)
  }

  // ------------------------------------------------------------- pages

  /** The converter run chooses (main.go:128-141): cmark-gfm followed by
      createAnchors when the binary is found (main.go:405-428), goldmark
      otherwise. */
  function Convert(env: Env, b: Bytes): (r: Result<Bytes>)
    ensures !env.hasCmark ==> r == env.goldmark(b)
    ensures env.hasCmark && env.cmark(b).Fail? ==> r == Fail(env.cmark(b).error)
    ensures env.hasCmark && env.cmark(b).Ok? ==>
              var a := AnchoredHtml(env.parseFragment, env.renderNode, env.slug, env.cmark(b).value);
              (a.Fail? ==> r == Fail(CreatingAnchors(a.error))) && (a.Ok? ==> r == a)
  {
    if env.hasCmark then
      match env.cmark(b)
      case Fail(e) => Fail(e)
      case Ok(h) =>
        match AnchoredHtml(env.parseFragment, env.renderNode, env.slug, h)
        case Fail(e) => Fail(CreatingAnchors(e))
        case Ok(a) => Ok(a)
    else env.goldmark(b)
  }

  /** renderFile (main.go:280-318): the page title and the file written. */
  function RenderFile(env: Env, mtime: int, dst: Path, src: Path): (r: Result<(string, Output)>)
    ensures src == dst ==> r == Fail(SameSourceAndDestination)
    ensures r.Ok? ==> r.value.1.Wrote? && r.value.1.path == dst && r.value.1.stamp == Stamp(mtime, env.stat(src))
    ensures r.Ok? ==> env.readFile(src).Ok? && Convert(env, env.readFile(src).value).Ok?
                      && r.value.0 == HeadingOr(env.tokenize, Convert(env, env.readFile(src).value).value, FileNameToTitle(Base(dst)))
                      && env.execute(Page(r.value.0, Convert(env, env.readFile(src).value).value, [], [])) == Ok(r.value.1.content)
  {
    if src == dst then Fail(SameSourceAndDestination)
    else match env.readFile(src)
      case Fail(e) => Fail(e)
      case Ok(b) =>
        match Convert(env, b)
        case Fail(e) => Fail(e)
        case Ok(html) =>
          var title := HeadingOr(env.tokenize, html, FileNameToTitle(Base(dst)));
          match env.execute(Page(title, html, [], []))
          case Fail(e) => Fail(e)
          case Ok(out) =>
            match env.writeFile(dst, out)
            case Some(e) => Fail(e)
            case None => Ok((title, Wrote(dst, out, Stamp(mtime, env.stat(src)))))
  }

  /** A rendered page is never stamped earlier than the templates: the
      output of a run is at least as new as every input it depends on. */
  lemma RenderedNotOlder(env: Env, mtime: int, dst: Path, src: Path)
    requires RenderFile(env, mtime, dst, src).Ok?
    requires env.stat(src).Ok?
    ensures RenderFile(env, mtime, dst, src).value.1.stamp.Some?
    ensures RenderFile(env, mtime, dst, src).value.1.stamp.value >= mtime
    ensures RenderFile(env, mtime, dst, src).value.1.stamp.value >= env.stat(src).value
  {
  }

  // ------------------------------------------------------------ indexes

  /** The README loop of renderIndex (main.go:325-341) over `pages`: the
      README content and the other pages. The first "README.md" page met
      while the content is still empty is converted; every other page is
      kept, in order. The loop's buffer is empty whenever a README is
      converted, so the content is that README's HTML. */
  function SplitReadme(env: Env, pages: seq<PageMeta>): Result<(Bytes, seq<PageMeta>)>
  {
    if pages == [] then Ok(([], []))
    else match SplitReadme(env, pages[..|pages| - 1])
      case Fail(e) => Fail(e)
      case Ok((readme, rest)) =>
        var meta := pages[|pages| - 1];
        if meta.dst != "README.md" || readme != [] then Ok((readme, rest + [meta]))
        else match env.readFile(meta.src)
          case Fail(e) => Fail(e)
          case Ok(b) =>
            match Convert(env, b)
            case Fail(e) => Fail(e)
            case Ok(h) => Ok((h, rest))
  }

  /** The loop stops at an error: once a prefix fails, so does the whole. */
  lemma {:induction false} SplitReadmeFails(env: Env, pages: seq<PageMeta>, i: nat)
    requires i <= |pages| && SplitReadme(env, pages[..i]).Fail?
    ensures SplitReadme(env, pages) == SplitReadme(env, pages[..i])
    decreases |pages| - i
  {
    if i < |pages| {
      assert pages[..i + 1][..i] == pages[..i];
      SplitReadmeFails(env, pages, i + 1);
    } else {
      assert pages[..i] == pages;
    }
  }

  predicate IsReadme(m: PageMeta)
  {
    m.dst == "README.md"
  }

  /** Without a "README.md" page there is no content and every page is kept. */
  lemma {:induction false} NoReadme(env: Env, pages: seq<PageMeta>)
    requires forall i :: 0 <= i < |pages| ==> !IsReadme(pages[i])
    ensures SplitReadme(env, pages) == Ok(([], pages))
  {
    if pages != [] {
      NoReadme(env, pages[..|pages| - 1]);
      assert pages[..|pages| - 1] + [pages[|pages| - 1]] == pages;
    }
  }

  /** Once the content is not empty, every further page is kept as it is. */
  lemma {:induction false} AfterReadme(env: Env, pre: seq<PageMeta>, post: seq<PageMeta>, readme: Bytes, rest: seq<PageMeta>)
    requires SplitReadme(env, pre) == Ok((readme, rest)) && readme != []
    ensures SplitReadme(env, pre + post) == Ok((readme, rest + post))
  {
    if post == [] {
      assert pre + post == pre && rest + post == rest;
    } else {
      var init := post[..|post| - 1];
      AfterReadme(env, pre, init, readme, rest);
      assert (pre + post)[..|pre + post| - 1] == pre + init;
      assert (pre + post)[|pre + post| - 1] == post[|post| - 1];
      assert rest + init + [post[|post| - 1]] == rest + post;
    }
  }

  /** The first "README.md" page, when its HTML is not empty, becomes the
      content, and the pages before and after it are kept in order; a
      second "README.md" after it is an ordinary page. */
  lemma FirstReadme(env: Env, pre: seq<PageMeta>, m: PageMeta, post: seq<PageMeta>, h: Bytes)
    requires forall i :: 0 <= i < |pre| ==> !IsReadme(pre[i])
    requires IsReadme(m) && env.readFile(m.src).Ok? && Convert(env, env.readFile(m.src).value) == Ok(h) && h != []
    ensures SplitReadme(env, pre + [m] + post) == Ok((h, pre + post))
  {
    NoReadme(env, pre);
    assert (pre + [m])[..|pre|] == pre;
    assert SplitReadme(env, pre + [m]) == Ok((h, pre));
    AfterReadme(env, pre + [m], post, h, pre);
  }

  /** A README at the end of a prefix, when the content is still empty,
      that converts to empty HTML leaves the loop's state as it was. */
  lemma EmptyReadmeStep(env: Env, pre: seq<PageMeta>, m: PageMeta)
    requires SplitReadme(env, pre).Ok? && SplitReadme(env, pre).value.0 == []
    requires IsReadme(m) && env.readFile(m.src).Ok? && Convert(env, env.readFile(m.src).value) == Ok([])
    ensures SplitReadme(env, pre + [m]) == SplitReadme(env, pre)
  {
    assert (pre + [m])[..|pre|] == pre;
  }

  /** Two page lists that leave the loop in the same state lead to the same
      result whatever pages follow. */
  lemma {:induction false} SplitReadmeSameState(env: Env, a: seq<PageMeta>, b: seq<PageMeta>, post: seq<PageMeta>)
    requires SplitReadme(env, a) == SplitReadme(env, b)
    ensures SplitReadme(env, a + post) == SplitReadme(env, b + post)
  {
    if post == [] {
      assert a + post == a && b + post == b;
    } else {
      var init := post[..|post| - 1];
      SplitReadmeSameState(env, a, b, init);
      assert (a + post)[..|a + post| - 1] == a + init && (a + post)[|a + post| - 1] == post[|post| - 1];
      assert (b + post)[..|b + post| - 1] == b + init && (b + post)[|b + post| - 1] == post[|post| - 1];
    }
  }

  /** The first "README.md" page, when its HTML is empty, is dropped from the
      page list and leaves the content empty, so a later "README.md" is
      converted in its place. */
  lemma EmptyReadme(env: Env, pre: seq<PageMeta>, m: PageMeta, post: seq<PageMeta>)
    requires forall i :: 0 <= i < |pre| ==> !IsReadme(pre[i])
    requires IsReadme(m) && env.readFile(m.src).Ok? && Convert(env, env.readFile(m.src).value) == Ok([])
    ensures SplitReadme(env, pre + [m] + post) == SplitReadme(env, pre + post)
  {
    NoReadme(env, pre);
    EmptyReadmeStep(env, pre, m);
    SplitReadmeSameState(env, pre + [m], pre, post);
  }

  /** renderIndex (main.go:324-359): the index file of `dir`. */
  function IndexPage(env: Env, dir: Path, pages: seq<PageMeta>, categories: seq<PageMeta>): (r: Result<Output>)
    ensures r.Ok? ==> r.value.Wrote? && r.value.path == dir + ["index.html"] && r.value.stamp.None?
  {
    match SplitReadme(env, pages)
    case Fail(e) => Fail(e)
    case Ok((readme, rest)) =>
      var fallback := Base(dir) + " index";
      var title := if readme != [] then HeadingOr(env.tokenize, readme, fallback) else fallback;
      match env.execute(Page(title, readme, rest, categories))
      case Fail(e) => Fail(e)
      case Ok(out) =>
        match env.writeFile(dir + ["index.html"], out)
        case Some(e) => Fail(e)
        case None => Ok(Wrote(dir + ["index.html"], out, None))
  }

  /** An index without a README is titled "<dir> index", has no content and
      lists every page. */
  lemma IndexWithoutReadme(env: Env, dir: Path, pages: seq<PageMeta>, categories: seq<PageMeta>)
    requires forall i :: 0 <= i < |pages| ==> !IsReadme(pages[i])
    ensures IndexPage(env, dir, pages, categories)
         == match env.execute(Page(Base(dir) + " index", [], pages, categories))
            case Fail(e) => Fail(e)
            case Ok(out) =>
              if env.writeFile(dir + ["index.html"], out).Some? then Fail(env.writeFile(dir + ["index.html"], out).value)
              else Ok(Wrote(dir + ["index.html"], out, None))
  {
    NoReadme(env, pages);
  }

  /** With a README whose HTML is not empty, the title is its first `<h1>`
      text if it has one, "<dir> index" otherwise. */
  lemma IndexTitle(env: Env, dir: Path, pre: seq<PageMeta>, m: PageMeta, post: seq<PageMeta>, h: Bytes,
                   categories: seq<PageMeta>)
    requires forall i :: 0 <= i < |pre| ==> !IsReadme(pre[i])
    requires IsReadme(m) && env.readFile(m.src).Ok? && Convert(env, env.readFile(m.src).value) == Ok(h) && h != []
    ensures IndexPage(env, dir, pre + [m] + post, categories)
         == match env.execute(Page(HeadingOr(env.tokenize, h, Base(dir) + " index"), h, pre + post, categories))
            case Fail(e) => Fail(e)
            case Ok(out) =>
              if env.writeFile(dir + ["index.html"], out).Some? then Fail(env.writeFile(dir + ["index.html"], out).value)
              else Ok(Wrote(dir + ["index.html"], out, None))
  {
    FirstReadme(env, pre, m, post, h);
  }

  /** With a README whose HTML is empty and no other README after it, the
      index is titled "<dir> index", has no content, and lists every page but
      that README. */
  lemma IndexEmptyReadme(env: Env, dir: Path, pre: seq<PageMeta>, m: PageMeta, post: seq<PageMeta>,
                         categories: seq<PageMeta>)
    requires forall i :: 0 <= i < |pre| ==> !IsReadme(pre[i])
    requires forall i :: 0 <= i < |post| ==> !IsReadme(post[i])
    requires IsReadme(m) && env.readFile(m.src).Ok? && Convert(env, env.readFile(m.src).value) == Ok([])
    ensures IndexPage(env, dir, pre + [m] + post, categories)
         == match env.execute(Page(Base(dir) + " index", [], pre + post, categories))
            case Fail(e) => Fail(e)
            case Ok(out) =>
              if env.writeFile(dir + ["index.html"], out).Some? then Fail(env.writeFile(dir + ["index.html"], out).value)
              else Ok(Wrote(dir + ["index.html"], out, None))
  {
    EmptyReadme(env, pre, m, post);
    NoReadme(env, pre + post);
  }

  /** renderIndex with its loop over the pages. */
  method RenderIndex(env: Env, dir: Path, pages: seq<PageMeta>, categories: seq<PageMeta>) returns (r: Result<Output>)
    ensures r == IndexPage(env, dir, pages, categories)
  {
    var readme: Bytes := [];
    var rest: seq<PageMeta> := [];
    for i := 0 to |pages|
      invariant SplitReadme(env, pages[..i]) == Ok((readme, rest))
    {
      assert pages[..i + 1][..i] == pages[..i];
      var meta := pages[i];
      if meta.dst != "README.md" || readme != [] {
        rest := rest + [meta];
        continue;
      }
      var b := env.readFile(meta.src);
      if b.Fail? {
        SplitReadmeFails(env, pages, i + 1);
        return Fail(b.error);
      }
      var h := Convert(env, b.value);
      if h.Fail? {
        SplitReadmeFails(env, pages, i + 1);
        return Fail(h.error);
      }
      readme := h.value;
    }
    assert pages[..|pages|] == pages;
    var title := Base(dir) + " index";
    if readme != [] {
      var s := FirstHeading(env.tokenize(readme));
      if s.Ok? && s.value != "" {
        title := s.value;
      }
    }
    var out := env.execute(Page(title, readme, rest, categories));
    if out.Fail? {
      return Fail(out.error);
    }
    var werr := env.writeFile(dir + ["index.html"], out.value);
    if werr.Some? {
      return Fail(werr.value);
    }
    r := Ok(Wrote(dir + ["index.html"], out.value, None));
  }
}

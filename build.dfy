/** The render mode of main.go: argument validation, the walk over the
    source tree that renders or copies each file and records directory
    indexes (`walkFunc` in `run`), and the synthesis of the missing
    `index.html` files.

    The walk is driven by the entries `filepath.Walk` would report, in its
    lexical pre-order, before any pruning; the model does the pruning that
    `filepath.SkipDir` asks for. */
module Build {
  import opened Common
  import opened Html
  import opened Render

  // ----------------------------------------------------------- arguments

  /** The directories of the command line (main.go:87-92, `Addr` left out). */
  datatype RunArgs = RunArgs(inputDir: string, outputDir: string, templatesDir: string)

  /** The directories after `validate`, as absolute paths. */
  datatype Dirs = Dirs(input: Path, output: Path, templates: Path)

  /** validate (main.go:94-112): make the three directories absolute, in
      order, then refuse a source that is the destination or the templates
      directory. */
  function Validate(abs: string -> Result<Path>, args: RunArgs): Result<Dirs>
  {
    match abs(args.inputDir)
    case Fail(e) => Fail(e)
    case Ok(i) =>
      match abs(args.outputDir)
      case Fail(e) => Fail(e)
      case Ok(o) =>
        match abs(args.templatesDir)
        case Fail(e) => Fail(e)
        case Ok(t) =>
          if i == o then Fail(SourceIsDestination)
          else if i == t then Fail(SourceIsTemplates)
          else Ok(Dirs(i, o, t))
  }

  /** validate accepts exactly when the three paths resolve and the source is
      neither the destination nor the templates directory; the destination
      check comes first. */
  lemma ValidateRule(abs: string -> Result<Path>, args: RunArgs)
    ensures Validate(abs, args).Ok? <==>
              abs(args.inputDir).Ok? && abs(args.outputDir).Ok? && abs(args.templatesDir).Ok?
              && abs(args.inputDir).value != abs(args.outputDir).value
              && abs(args.inputDir).value != abs(args.templatesDir).value
    ensures Validate(abs, args).Ok? ==>
              Validate(abs, args).value
              == Dirs(abs(args.inputDir).value, abs(args.outputDir).value, abs(args.templatesDir).value)
    ensures abs(args.inputDir).Ok? && abs(args.outputDir).Ok? && abs(args.templatesDir).Ok?
            && abs(args.inputDir).value == abs(args.outputDir).value ==>
              Validate(abs, args) == Fail(SourceIsDestination)
  {
  }

  // ------------------------------------------------------------ the walk

  /** What the walk reports for one path: its path relative to the source
      directory, its kind, and the error `filepath.Walk` passes along. */
  datatype Entry = Entry(rel: Path, isDir: bool, isRegular: bool, err: Option<Error>)

  /** What walkFunc returns: go on, prune this directory, or fail. */
  datatype Action = Continue | SkipDir | Stop(error: Error)

  /** The pages and subdirectories recorded for one destination directory. */
  datatype DirIndex = DirIndex(pages: seq<PageMeta>, categories: seq<PageMeta>)

  /** What the walk builds: `dirsIndex`, `skipIndex` (main.go:144-151), and
      the files written or copied so far. */
  datatype Site = Site(dirs: map<Path, DirIndex>, skip: set<Path>, outputs: seq<Output>)

  /** Go's map read, which gives the zero value for a missing key. */
  function Lookup(dirs: map<Path, DirIndex>, key: Path): DirIndex
  {
    if key in dirs then dirs[key] else DirIndex([], [])
  }

  /** copyFile (main.go:234-273): refuses to copy a file onto itself; the
      rest of it is the `copyFile` effect. */
  function CopyFile(env: Env, dst: Path, src: Path): (r: Result<Output>)
    ensures src == dst ==> r == Fail(SameSourceAndDestination)
    ensures r.Ok? ==> r.value == Copied(dst, src)
  {
    if src == dst then Fail(SameSourceAndDestination)
    else match env.copyFile(dst, src)
      case Some(e) => Fail(e)
      case None => Ok(Copied(dst, src))
  }

  /** main.go:177-191: record `dstDir` as a category of its parent, unless it
      is already the last category there. */
  function AddCategory(site: Site, dstDir: Path): Site
  {
    var key := Dir(dstDir);
    var dir := Base(dstDir);
    var res := Lookup(site.dirs, key);
    if res.categories == [] || res.categories[|res.categories| - 1].dst != dir then
      site.(dirs := site.dirs[key := res.(categories := res.categories + [PageMeta(FileNameToTitle(dir), dir, [])])])
    else site
  }

  /** The category rule: only the parent's categories change, by at most one
      entry named after the directory, and only if the last one differs. */
  lemma CategoryRule(site: Site, dstDir: Path)
    ensures AddCategory(site, dstDir).skip == site.skip && AddCategory(site, dstDir).outputs == site.outputs
    ensures forall k :: k != Dir(dstDir) ==> Lookup(AddCategory(site, dstDir).dirs, k) == Lookup(site.dirs, k)
    ensures Lookup(AddCategory(site, dstDir).dirs, Dir(dstDir)).pages == Lookup(site.dirs, Dir(dstDir)).pages
    ensures var before := Lookup(site.dirs, Dir(dstDir)).categories;
            var after := Lookup(AddCategory(site, dstDir).dirs, Dir(dstDir)).categories;
            if before == [] || before[|before| - 1].dst != Base(dstDir)
            then after == before + [PageMeta(FileNameToTitle(Base(dstDir)), Base(dstDir), [])]
            else after == before
  {
  }

  /** walkFunc (main.go:153-209) on one entry: the new state and what it
      returns. */
  function VisitSpec(env: Env, d: Dirs, mtime: int, site: Site, e: Entry): (Site, Action)
  {
    var path := d.input + e.rel;
    var base := Base(path);
    if e.err.Some? then (site, Stop(e.err.value))
    else if e.isDir && |base| > 1 && HasPrefix(base, ".") then (site, SkipDir)
    else if e.isDir && (path == d.templates || path == d.output) then (site, SkipDir)
    else if !e.isRegular || HasPrefix(base, ".") then (site, Continue)
    else
      var dst := d.output + e.rel;
      var isMd := HasSuffix(base, MdSuffix);
      var site1 := if Dir(dst) != d.output && isMd then AddCategory(site, Dir(dst)) else site;
      var key := Dir(dst);
      if !isMd then
        var site2 := if base == "index.html" then site1.(skip := site1.skip + {key}) else site1;
        match CopyFile(env, dst, path)
        case Fail(err) => (site2, Stop(err))
        case Ok(o) => (site2.(outputs := site2.outputs + [o]), Continue)
      else
        match RenderFile(env, mtime, dst, path)
        case Fail(err) => (site1, Stop(err))
        case Ok((title, o)) =>
          var res := Lookup(site1.dirs, key);
          (site1.(dirs := site1.dirs[key := res.(pages := res.pages + [PageMeta(title, base, path)])],
                  outputs := site1.outputs + [o]), Continue)
  }

  /** Hidden directories, the templates directory and the output directory
      are pruned, and nothing is recorded for them. */
  lemma VisitPrunes(env: Env, d: Dirs, mtime: int, site: Site, e: Entry)
    requires e.err.None? && e.isDir
    requires var base := Base(d.input + e.rel);
             (|base| > 1 && HasPrefix(base, ".")) || d.input + e.rel == d.templates || d.input + e.rel == d.output
    ensures VisitSpec(env, d, mtime, site, e) == (site, SkipDir)
  {
  }

  /** Other directories, non-regular files and hidden files are passed over
      with no change. */
  lemma VisitIgnores(env: Env, d: Dirs, mtime: int, site: Site, e: Entry)
    requires e.err.None?
    requires var base := Base(d.input + e.rel);
             !(e.isDir && |base| > 1 && HasPrefix(base, "."))
             && !(e.isDir && (d.input + e.rel == d.templates || d.input + e.rel == d.output))
    requires !e.isRegular || HasPrefix(Base(d.input + e.rel), ".")
    ensures VisitSpec(env, d, mtime, site, e) == (site, Continue)
  {
  }

  /** A regular, visible entry whose walkFunc runs to the end. */
  predicate Handled(d: Dirs, e: Entry)
  {
    var base := Base(d.input + e.rel);
    e.err.None? && e.isRegular && !HasPrefix(base, ".")
    && !(e.isDir && (d.input + e.rel == d.templates || d.input + e.rel == d.output))
  }

  /** A file that is not Markdown adds no page and no category; it is copied,
      the copy is appended to the outputs when it succeeds, and an
      `index.html` marks its destination directory as having an index. */
  lemma VisitCopies(env: Env, d: Dirs, mtime: int, site: Site, e: Entry)
    requires Handled(d, e) && !HasSuffix(Base(d.input + e.rel), MdSuffix)
    ensures VisitSpec(env, d, mtime, site, e).0.dirs == site.dirs
    ensures VisitSpec(env, d, mtime, site, e).0.skip
         == site.skip + (if Base(d.input + e.rel) == "index.html" then {Dir(d.output + e.rel)} else {})
    ensures VisitSpec(env, d, mtime, site, e).1
         == match CopyFile(env, d.output + e.rel, d.input + e.rel)
            case Fail(err) => Stop(err)
            case Ok(_) => Continue
    ensures VisitSpec(env, d, mtime, site, e).0.outputs
         == site.outputs + (if CopyFile(env, d.output + e.rel, d.input + e.rel).Ok?
                            then [Copied(d.output + e.rel, d.input + e.rel)] else [])
  {
    assert |Base(d.input + e.rel)| > 1 ==> HasPrefix(Base(d.input + e.rel), ".") == false;
  }

  /** A Markdown file adds exactly one page, `{title, base name, source}`, at
      the end of its destination directory's pages when it renders, and no
      page when it does not; no other directory's pages change. Its
      destination directory, unless it is the output root, is first recorded
      as a category of its parent, whether or not the file renders; the
      written page is appended to the outputs. */
  lemma VisitRenders(env: Env, d: Dirs, mtime: int, site: Site, e: Entry)
    requires Handled(d, e) && HasSuffix(Base(d.input + e.rel), MdSuffix)
    ensures var r := VisitSpec(env, d, mtime, site, e).0;
            forall k :: k != Dir(d.output + e.rel) ==> Lookup(r.dirs, k).pages == Lookup(site.dirs, k).pages
    ensures var r := VisitSpec(env, d, mtime, site, e).0;
            var rf := RenderFile(env, mtime, d.output + e.rel, d.input + e.rel);
            Lookup(r.dirs, Dir(d.output + e.rel)).pages
            == Lookup(site.dirs, Dir(d.output + e.rel)).pages
               + (if rf.Ok? then [PageMeta(rf.value.0, Base(d.input + e.rel), d.input + e.rel)] else [])
    ensures VisitSpec(env, d, mtime, site, e).0.skip == site.skip
    ensures var rf := RenderFile(env, mtime, d.output + e.rel, d.input + e.rel);
            VisitSpec(env, d, mtime, site, e).1 == if rf.Ok? then Continue else Stop(rf.error)
    ensures var r := VisitSpec(env, d, mtime, site, e).0;
            var dst := d.output + e.rel;
            var site1 := if Dir(dst) != d.output then AddCategory(site, Dir(dst)) else site;
            forall k :: Lookup(r.dirs, k).categories == Lookup(site1.dirs, k).categories
    ensures var rf := RenderFile(env, mtime, d.output + e.rel, d.input + e.rel);
            VisitSpec(env, d, mtime, site, e).0.outputs == site.outputs + (if rf.Ok? then [rf.value.1] else [])
  {
    VisitRendersPages(env, d, mtime, site, e);
    VisitRendersRecords(env, d, mtime, site, e);
  }

  /** The pages part of VisitRenders. */
  lemma VisitRendersPages(env: Env, d: Dirs, mtime: int, site: Site, e: Entry)
    requires Handled(d, e) && HasSuffix(Base(d.input + e.rel), MdSuffix)
    ensures var r := VisitSpec(env, d, mtime, site, e).0;
            forall k :: k != Dir(d.output + e.rel) ==> Lookup(r.dirs, k).pages == Lookup(site.dirs, k).pages
    ensures var r := VisitSpec(env, d, mtime, site, e).0;
            var rf := RenderFile(env, mtime, d.output + e.rel, d.input + e.rel);
            Lookup(r.dirs, Dir(d.output + e.rel)).pages
            == Lookup(site.dirs, Dir(d.output + e.rel)).pages
               + (if rf.Ok? then [PageMeta(rf.value.0, Base(d.input + e.rel), d.input + e.rel)] else [])
  {
    var dst := d.output + e.rel;
    var site1 := if Dir(dst) != d.output then AddCategory(site, Dir(dst)) else site;
    VisitMarkdown(env, d, mtime, site, e);
    CategoryRule(site, Dir(dst));
    assert forall k :: Lookup(site1.dirs, k).pages == Lookup(site.dirs, k).pages;
  }

  /** The skip, action, category and output part of VisitRenders. */
  lemma VisitRendersRecords(env: Env, d: Dirs, mtime: int, site: Site, e: Entry)
    requires Handled(d, e) && HasSuffix(Base(d.input + e.rel), MdSuffix)
    ensures VisitSpec(env, d, mtime, site, e).0.skip == site.skip
    ensures var rf := RenderFile(env, mtime, d.output + e.rel, d.input + e.rel);
            VisitSpec(env, d, mtime, site, e).1 == if rf.Ok? then Continue else Stop(rf.error)
    ensures var r := VisitSpec(env, d, mtime, site, e).0;
            var dst := d.output + e.rel;
            var site1 := if Dir(dst) != d.output then AddCategory(site, Dir(dst)) else site;
            forall k :: Lookup(r.dirs, k).categories == Lookup(site1.dirs, k).categories
    ensures var rf := RenderFile(env, mtime, d.output + e.rel, d.input + e.rel);
            VisitSpec(env, d, mtime, site, e).0.outputs == site.outputs + (if rf.Ok? then [rf.value.1] else [])
  {
    VisitMarkdown(env, d, mtime, site, e);
    CategoryRule(site, Dir(d.output + e.rel));
  }

  /** The walkFunc branch a Markdown file takes: the category step, then
      renderFile. */
  lemma VisitMarkdown(env: Env, d: Dirs, mtime: int, site: Site, e: Entry)
    requires Handled(d, e) && HasSuffix(Base(d.input + e.rel), MdSuffix)
    ensures var dst := d.output + e.rel;
            var site1 := if Dir(dst) != d.output then AddCategory(site, Dir(dst)) else site;
            VisitSpec(env, d, mtime, site, e)
            == match RenderFile(env, mtime, dst, d.input + e.rel)
               case Fail(err) => (site1, Stop(err))
               case Ok((title, o)) =>
                 var res := Lookup(site1.dirs, Dir(dst));
                 (site1.(dirs := site1.dirs[Dir(dst) := res.(pages := res.pages + [PageMeta(title, Base(d.input + e.rel), d.input + e.rel)])],
                         outputs := site1.outputs + [o]), Continue)
  {
    assert Base(d.input + e.rel) == ".md" ==> HasPrefix(Base(d.input + e.rel), ".");
  }

  /** No two adjacent categories of a directory have the same name. */
  predicate NoAdjacentRepeats(cs: seq<PageMeta>)
  {
    forall i :: 0 < i < |cs| ==> cs[i - 1].dst != cs[i].dst
  }

  /** What the walk keeps true: categories have no adjacent repeats, and every
      file copied from an `index.html` has its directory in `skip`. */
  ghost predicate Consistent(site: Site)
  {
    (forall k :: k in site.dirs ==> NoAdjacentRepeats(site.dirs[k].categories))
    && (forall i :: 0 <= i < |site.outputs| && site.outputs[i].Copied? && Base(site.outputs[i].src) == "index.html" ==>
          Dir(site.outputs[i].dst) in site.skip)
  }

  lemma AddCategoryConsistent(site: Site, dstDir: Path)
    requires Consistent(site)
    ensures Consistent(AddCategory(site, dstDir))
  {
    var key := Dir(dstDir);
    var res := Lookup(site.dirs, key);
    var cs := res.categories;
    var r := AddCategory(site, dstDir);
    if cs == [] || cs[|cs| - 1].dst != Base(dstDir) {
      var cs' := cs + [PageMeta(FileNameToTitle(Base(dstDir)), Base(dstDir), [])];
      assert NoAdjacentRepeats(cs) by {
        if key in site.dirs { assert cs == site.dirs[key].categories; }
      }
      assert NoAdjacentRepeats(cs') by {
        forall i | 0 < i < |cs'| ensures cs'[i - 1].dst != cs'[i].dst {
          if i < |cs| { assert cs'[i - 1] == cs[i - 1] && cs'[i] == cs[i]; }
        }
      }
      assert r.dirs[key].categories == cs';
    }
  }

  /** Recording a page and its written file keeps the state consistent. */
  lemma AddPageConsistent(site: Site, key: Path, page: PageMeta, o: Output)
    requires Consistent(site) && o.Wrote?
    ensures var res := Lookup(site.dirs, key);
            Consistent(site.(dirs := site.dirs[key := res.(pages := res.pages + [page])], outputs := site.outputs + [o]))
  {
    var res := Lookup(site.dirs, key);
    assert NoAdjacentRepeats(res.categories) by {
      if key in site.dirs { assert res == site.dirs[key]; }
    }
    var outs := site.outputs + [o];
    assert forall i :: 0 <= i < |site.outputs| ==> outs[i] == site.outputs[i];
  }

  /** Copying a file keeps the state consistent when a copied `index.html`
      has its directory in `skip`. */
  lemma AddCopyConsistent(site: Site, dst: Path, src: Path)
    requires Consistent(site)
    requires Base(src) == "index.html" ==> Dir(dst) in site.skip
    ensures Consistent(site.(outputs := site.outputs + [Copied(dst, src)]))
  {
    var outs := site.outputs + [Copied(dst, src)];
    assert forall i :: 0 <= i < |site.outputs| ==> outs[i] == site.outputs[i];
  }

  /** walkFunc keeps the walk's state consistent. */
  lemma VisitConsistent(env: Env, d: Dirs, mtime: int, site: Site, e: Entry)
    requires Consistent(site)
    ensures Consistent(VisitSpec(env, d, mtime, site, e).0)
  {
    var path := d.input + e.rel;
    var base := Base(path);
    var dst := d.output + e.rel;
    if Handled(d, e) && !(e.isDir && |base| > 1 && HasPrefix(base, ".")) {
      var isMd := HasSuffix(base, MdSuffix);
      var site1 := if Dir(dst) != d.output && isMd then AddCategory(site, Dir(dst)) else site;
      AddCategoryConsistent(site, Dir(dst));
      if !isMd {
        var site2 := if base == "index.html" then site1.(skip := site1.skip + {Dir(dst)}) else site1;
        if CopyFile(env, dst, path).Ok? {
          AddCopyConsistent(site2, dst, path);
        }
      } else {
        var rf := RenderFile(env, mtime, dst, path);
        if rf.Ok? {
          AddPageConsistent(site1, Dir(dst), PageMeta(rf.value.0, base, path), rf.value.1);
        }
      }
    }
  }

  /** `rel` lies strictly inside a pruned directory. */
  predicate Under(rel: Path, pruned: set<Path>)
  {
    exists k :: 0 <= k < |rel| && rel[..k] in pruned
  }

  /** filepath.Walk with walkFunc (main.go:210): entries inside a pruned
      directory are not visited, a pruned directory's own entry is, and the
      first error ends the walk. */
  function WalkSpec(env: Env, d: Dirs, mtime: int, site: Site, es: seq<Entry>, pruned: set<Path>): (Site, Option<Error>)
    decreases |es|
  {
    if es == [] then (site, None)
    else if Under(es[0].rel, pruned) then WalkSpec(env, d, mtime, site, es[1..], pruned)
    else
      var (site', a) := VisitSpec(env, d, mtime, site, es[0]);
      match a
      case Continue => WalkSpec(env, d, mtime, site', es[1..], pruned)
      case SkipDir => WalkSpec(env, d, mtime, site', es[1..], pruned + {es[0].rel})
      case Stop(err) => (site', Some(err))
  }

  /** The walk keeps the state consistent. */
  lemma {:induction false} WalkConsistent(env: Env, d: Dirs, mtime: int, site: Site, es: seq<Entry>, pruned: set<Path>)
    requires Consistent(site)
    ensures Consistent(WalkSpec(env, d, mtime, site, es, pruned).0)
    decreases |es|
  {
    if es != [] {
      VisitConsistent(env, d, mtime, site, es[0]);
      var (site', a) := VisitSpec(env, d, mtime, site, es[0]);
      WalkConsistent(env, d, mtime, site, es[1..], pruned);
      WalkConsistent(env, d, mtime, site', es[1..], pruned);
      WalkConsistent(env, d, mtime, site', es[1..], pruned + {es[0].rel});
    }
  }

  /** Nothing inside a pruned directory is rendered, copied or recorded. */
  lemma {:induction false} PrunedUntouched(env: Env, d: Dirs, mtime: int, site: Site, es: seq<Entry>,
                                           pruned: set<Path>, dir: Path)
    requires dir in pruned
    requires forall i :: 0 <= i < |es| ==> |dir| < |es[i].rel| && es[i].rel[..|dir|] == dir
    ensures WalkSpec(env, d, mtime, site, es, pruned) == (site, None)
    decreases |es|
  {
    if es != [] {
      assert es[0].rel[..|dir|] in pruned;
      PrunedUntouched(env, d, mtime, site, es[1..], pruned, dir);
    }
  }

  // ---------------------------------------------------------- the index

  /** The state of walkFunc's closure: `dirsIndex`, `skipIndex`, and the
      files written so far. */
  class SiteIndex {
    var dirs: map<Path, DirIndex>
    var skip: set<Path>
    var outputs: seq<Output>

    function State(): Site
      reads this
    {
      Site(dirs, skip, outputs)
    }

    ghost predicate Valid()
      reads this
    {
      Consistent(State())
    }

    constructor ()
      ensures State() == Site(map[], {}, [])
      ensures Valid()
    {
      dirs := map[];
      skip := {};
      outputs := [];
    }

    /** walkFunc on one entry. */
    method Visit(env: Env, d: Dirs, mtime: int, e: Entry) returns (a: Action)
      modifies this
      ensures (State(), a) == VisitSpec(env, d, mtime, old(State()), e)
    {
      if e.err.Some? {
        return Stop(e.err.value);
      }
      var path := d.input + e.rel;
      var base := Base(path);
      if e.isDir && |base| > 1 && HasPrefix(base, ".") {
        return SkipDir;
      }
      if e.isDir && (path == d.templates || path == d.output) {
        return SkipDir;
      }
      if !e.isRegular || HasPrefix(base, ".") {
        return Continue;
      }
      ghost var s0 := State();
      var dst := d.output + e.rel;
      var dstDir := Dir(dst);
      if dstDir != d.output && HasSuffix(base, MdSuffix) {
        var key := Dir(dstDir);
        var res := Lookup(dirs, key);
        var dir := Base(dstDir);
        if |res.categories| == 0 || res.categories[|res.categories| - 1].dst != dir {
          res := res.(categories := res.categories + [PageMeta(FileNameToTitle(dir), dir, [])]);
          dirs := dirs[key := res];
        }
      }
      ghost var s1 := State();
      assert s1 == if dstDir != d.output && HasSuffix(base, MdSuffix) then AddCategory(s0, dstDir) else s0;
      var key := dstDir;
      if !HasSuffix(base, MdSuffix) {
        if base == "index.html" {
          skip := skip + {key};
        }
        var c := CopyFile(env, dst, path);
        if c.Fail? {
          return Stop(c.error);
        }
        outputs := outputs + [c.value];
        return Continue;
      }
      var rf := RenderFile(env, mtime, dst, path);
      if rf.Fail? {
        return Stop(rf.error);
      }
      var res := Lookup(dirs, key);
      res := res.(pages := res.pages + [PageMeta(rf.value.0, base, path)]);
      dirs := dirs[key := res];
      outputs := outputs + [rf.value.1];
      a := Continue;
    }

    /** filepath.Walk driving walkFunc over the entries. */
    method Walk(env: Env, d: Dirs, mtime: int, es: seq<Entry>) returns (err: Option<Error>)
      modifies this
      ensures (State(), err) == WalkSpec(env, d, mtime, old(State()), es, {})
      ensures old(Valid()) ==> Valid()
    {
      ghost var start := State();
      if Valid() {
        WalkConsistent(env, d, mtime, start, es, {});
      }
      var pruned: set<Path> := {};
      var i := 0;
      while i < |es|
        invariant 0 <= i <= |es|
        invariant WalkSpec(env, d, mtime, State(), es[i..], pruned) == WalkSpec(env, d, mtime, start, es, {})
        decreases |es| - i
      {
        assert es[i..][0] == es[i] && es[i..][1..] == es[i + 1..];
        if Under(es[i].rel, pruned) {
          i := i + 1;
          continue;
        }
        var a := Visit(env, d, mtime, es[i]);
        match a {
          case Continue =>
          case SkipDir =>
            pruned := pruned + {es[i].rel};
          case Stop(e) =>
            return Some(e);
        }
        i := i + 1;
      }
      err := None;
    }
  }

  // ----------------------------------------------------------- synthesis

  /** The index renderIndex writes for a recorded directory. */
  function IndexOf(env: Env, dirs: map<Path, DirIndex>, dir: Path): Result<Output>
    requires dir in dirs
  {
    IndexPage(env, dir, dirs[dir].pages, dirs[dir].categories)
  }

  /** What the synthesis loop leaves behind: every file written is the index
      of a recorded directory that is not in `skip`; without an error every
      such directory has its index among them; an error is the failure of
      one such directory. */
  ghost predicate IndexesWritten(env: Env, dirs: map<Path, DirIndex>, skip: set<Path>, written: seq<Output>, err: Option<Error>)
  {
    (forall i :: 0 <= i < |written| ==>
       exists k :: k in dirs && k !in skip && IndexOf(env, dirs, k) == Ok(written[i]))
    && (err.None? ==> forall k :: k in dirs && k !in skip ==> IndexOf(env, dirs, k).Ok? && IndexOf(env, dirs, k).value in written)
    && (err.Some? ==> exists k :: k in dirs && k !in skip && IndexOf(env, dirs, k) == Fail(err.value))
  }

  /** The synthesis loop (main.go:214-221), over the directories in no
      particular order: `done` lists the directories indexed, in order, with
      the files written. A directory in `skip` is never indexed, so an
      `index.html` of the source is never overwritten; on success every
      other recorded directory is; an error is that of a directory not done. */
  method Synthesize(env: Env, dirs: map<Path, DirIndex>, skip: set<Path>)
    returns (written: seq<Output>, done: seq<Path>, err: Option<Error>)
    ensures |written| == |done|
    ensures forall i :: 0 <= i < |done| ==> done[i] in dirs && done[i] !in skip
    ensures forall i :: 0 <= i < |done| ==> IndexOf(env, dirs, done[i]) == Ok(written[i])
    ensures forall i, j :: 0 <= i < j < |done| ==> done[i] != done[j]
    ensures forall i :: 0 <= i < |written| ==>
              written[i].Wrote? && Base(written[i].path) == "index.html" && Dir(written[i].path) !in skip
    ensures err.None? ==> forall k :: k in dirs && k !in skip ==> k in done
    ensures err.Some? ==> exists k :: k in dirs && k !in skip && k !in done && IndexOf(env, dirs, k) == Fail(err.value)
  {
    written, done, err := [], [], None;
    var remaining := dirs.Keys;
    while remaining != {}
      invariant remaining <= dirs.Keys
      invariant |written| == |done|
      invariant forall i :: 0 <= i < |done| ==> done[i] in dirs && done[i] !in skip && done[i] !in remaining
      invariant forall i :: 0 <= i < |done| ==> IndexOf(env, dirs, done[i]) == Ok(written[i])
      invariant forall i, j :: 0 <= i < j < |done| ==> done[i] != done[j]
      invariant forall i :: 0 <= i < |written| ==> written[i].Wrote? && written[i].path == done[i] + ["index.html"]
      invariant forall k :: k in dirs && k !in skip && k !in remaining ==> k in done
      decreases remaining
    {
      var dir :| dir in remaining;
      remaining := remaining - {dir};
      if dir in skip {
        continue;
      }
      var res := dirs[dir];
      var r := RenderIndex(env, dir, res.pages, res.categories);
      if r.Fail? {
        return written, done, Some(r.error);
      }
      written := written + [r.value];
      done := done + [dir];
    }
    assert forall i :: 0 <= i < |written| ==> Dir(written[i].path) == done[i];
  }

  /** What Synthesize promises amounts to IndexesWritten. */
  lemma SynthesisWritesIndexes(env: Env, dirs: map<Path, DirIndex>, skip: set<Path>,
                               written: seq<Output>, done: seq<Path>, err: Option<Error>)
    requires |written| == |done|
    requires forall i :: 0 <= i < |done| ==> done[i] in dirs && done[i] !in skip
    requires forall i :: 0 <= i < |done| ==> IndexOf(env, dirs, done[i]) == Ok(written[i])
    requires err.None? ==> forall k :: k in dirs && k !in skip ==> k in done
    requires err.Some? ==> exists k :: k in dirs && k !in skip && IndexOf(env, dirs, k) == Fail(err.value)
    ensures IndexesWritten(env, dirs, skip, written, err)
  {
    forall i | 0 <= i < |written|
      ensures exists k :: k in dirs && k !in skip && IndexOf(env, dirs, k) == Ok(written[i])
    {
      assert IndexOf(env, dirs, done[i]) == Ok(written[i]);
    }
    if err.None? {
      forall k | k in dirs && k !in skip
        ensures IndexOf(env, dirs, k).Ok? && IndexOf(env, dirs, k).value in written
      {
        var n :| 0 <= n < |done| && done[n] == k;
        assert IndexOf(env, dirs, done[n]) == Ok(written[n]);
      }
    }
  }

  // ----------------------------------------------------------------- run

  /** What the walk and the synthesis of `run` leave behind (main.go:143-222):
      the files of the walk come first; a failed walk returns no error and
      writes no index; otherwise the files after them are indexes as
      IndexesWritten says. The walk's state is consistent, and no index is
      written over a copied `index.html`. */
  ghost predicate Built(env: Env, d: Dirs, mtime: int, entries: seq<Entry>, err: Option<Error>, outputs: seq<Output>)
  {
    var (site, werr) := WalkSpec(env, d, mtime, Site(map[], {}, []), entries, {});
    |site.outputs| <= |outputs| && outputs[..|site.outputs|] == site.outputs
    && (werr.Some? ==> err == None && outputs == site.outputs)
    && (werr.None? ==> IndexesWritten(env, site.dirs, site.skip, outputs[|site.outputs|..], err))
    && Consistent(site)
    && forall i, j :: |site.outputs| <= i < |outputs| && 0 <= j < |site.outputs|
                       && site.outputs[j].Copied? && Base(site.outputs[j].src) == "index.html" ==>
                         outputs[i].Wrote? && outputs[i].path != site.outputs[j].dst
  }

  /** The part of run after the templates are loaded (main.go:143-222): the
      walk, then the indexes. */
  method BuildSite(env: Env, d: Dirs, mtime: int, entries: seq<Entry>) returns (err: Option<Error>, outputs: seq<Output>)
    ensures Built(env, d, mtime, entries, err, outputs)
  {
    var site := new SiteIndex();
    var werr := site.Walk(env, d, mtime, entries);
    var walked, dirs, skip := site.outputs, site.dirs, site.skip;
    assert (Site(dirs, skip, walked), werr) == WalkSpec(env, d, mtime, Site(map[], {}, []), entries, {});
    if werr.Some? {
      // the walk's error is dropped and no index is written (main.go:210-212)
      assert walked[..|walked|] == walked;
      return None, walked;
    }
    var written, done, serr := Synthesize(env, dirs, skip);
    outputs := walked + written;
    err := serr;
    assert outputs[..|walked|] == walked;
    assert outputs[|walked|..] == written;
    SynthesisWritesIndexes(env, dirs, skip, written, done, err);
    forall i, j | |walked| <= i < |outputs| && 0 <= j < |walked|
                  && walked[j].Copied? && Base(walked[j].src) == "index.html"
      ensures outputs[i].Wrote? && outputs[i].path != walked[j].dst
    {
      assert outputs[i] == written[i - |walked|];
      assert Dir(walked[j].dst) in skip;
    }
  }

  /** run (main.go:114-223): the error it returns and the files written. */
  method Run(env: Env, args: RunArgs, entries: seq<Entry>) returns (err: Option<Error>, outputs: seq<Output>)
    ensures Validate(env.abs, args).Fail? ==> err == Some(Validate(env.abs, args).error) && outputs == []
    ensures Validate(env.abs, args).Ok? && env.parseTemplates(Validate(env.abs, args).value.templates + ["*.html"]).Some? ==>
              err == Some(ParsingTemplates(Validate(env.abs, args).value.templates,
                                           env.parseTemplates(Validate(env.abs, args).value.templates + ["*.html"]).value))
              && outputs == []
    ensures Validate(env.abs, args).Ok? && env.parseTemplates(Validate(env.abs, args).value.templates + ["*.html"]).None? ==>
              var d := Validate(env.abs, args).value;
              var m := LatestMtimeSpec(env.glob, env.stat, d.templates + ["*.html"]);
              (m.Fail? ==> err == Some(m.error) && outputs == [])
              && (m.Ok? ==> Built(env, d, m.value, entries, err, outputs))
  {
    var v := Validate(env.abs, args);
    if v.Fail? {
      return Some(v.error), [];
    }
    var d := v.value;
    var pat := d.templates + ["*.html"];
    var perr := env.parseTemplates(pat);
    if perr.Some? {
      return Some(ParsingTemplates(d.templates, perr.value)), [];
    }
    var mtime := LatestMtime(env.glob, env.stat, pat);
    if mtime.Fail? {
      return Some(mtime.error), [];
    }
    err, outputs := BuildSite(env, d, mtime.value, entries);
  }
}

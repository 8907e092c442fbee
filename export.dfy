/** The document loop of `process_files`: each document's text is rewritten,
    its front matter split off, protected, parsed and restored; a document
    with usable front matter is numbered in the table of contents and gets a
    page heading; pages are joined with a page-break marker between
    consecutive documents. */
module Export {
  import opened Wrappers
  import opened Text
  import opened Paths
  import opened Rewrite
  import opened Frontmatter
  import opened Toc

  /** The configuration the exporter reads from module-level names. */
  datatype Settings = Settings(changeImgUrl: bool, basePath: string, pathArgs: string,
                               repoDir: string, docsDir: string)

  /** A document: its path and the text read from it. */
  datatype Doc = Doc(path: string, content: string)

  /** What ends the export: `lines.index` finding no closing line, front
      matter that parses to something other than a mapping (`data.get`
      raising), or the page heading template raising. */
  datatype ExportError = MissingClosingLine(path: string) | NotAMapping(path: string) | HeadingFailed(path: string)

  /** What has been built after some documents: the counter, the table of
      contents so far and one page per document. */
  datatype Acc = Acc(numbering: seq<nat>, toc: string, pages: seq<string>)

  /** The table of contents and the pages joined by page breaks. */
  datatype Exported = Exported(toc: string, pages: string)

  /** The page heading template: full title, documentation path and the
      restored front matter in, the heading markup through the closing
      `</br>` out, or `None` when the template raises (a `related` value
      that is not a mapping). */
  type HeadingTemplate = (string, string, seq<(string, Value)>) -> Option<string>

  const PageBreak := "<div class=\"page-break\"></div>"

  // ---------------------------------------------------------------------
  // Per-document pieces

  /** The text after the optional image-path rewrite and the code-fence rewrite. */
  function Rewritten(content: string, cfg: Settings): string {
    PreprocessCodeBlocks(if cfg.changeImgUrl then ProcessImagePaths(content, cfg.basePath, cfg.pathArgs) else content)
  }

  /** `os.path.relpath(path, base)` for a path below `base`. */
  function RelPath(path: string, base: string): (r: string)
    ensures StartsWith(path, PathJoin(base, "")) ==> PathJoin(base, "") + r == path
  {
    var dir := PathJoin(base, "");
    if StartsWith(path, dir) then path[|dir|..] else path
  }

  /** The depth of a document below the docs directory. */
  function DocDepth(path: string, cfg: Settings): nat {
    Depth(RelPath(path, PathJoin(cfg.repoDir, cfg.docsDir)))
  }

  /** The documentation path shown on the page: backslashes made slashes,
      `.mdx` and the `repo/docs` prefix removed wherever they occur. */
  function DocPath(path: string, cfg: Settings): string {
    ReplaceAll(ReplaceAll(ReplaceAll(path, "\\", "/"), ".mdx", ""), cfg.repoDir + "/" + cfg.docsDir, "")
  }

  /** `data.get(key)` on the entries of a mapping. */
  function Lookup(entries: seq<(string, Value)>, key: string): (r: Option<Value>)
    ensures r.None? <==> forall k :: 0 <= k < |entries| ==> entries[k].0 != key
    ensures r.Some? ==> exists k :: 0 <= k < |entries| && entries[k] == (key, r.value)
    decreases |entries|
  {
    if entries == [] then None
    else if entries[0].0 == key then Some(entries[0].1)
    else Lookup(entries[1..], key)
  }

  /** A value as an f-string shows it. */
  function Shown(v: Value): string {
    match v
    case Str(s) => s
    case Other(t) => t
  }

  /** `data.get('title', <title-cased file stem>)`. */
  function TitleOf(entries: seq<(string, Value)>, path: string): string {
    match Lookup(entries, "title")
    case Some(v) => Shown(v)
    case None => DefaultTitle(path)
  }

  /** The front matter of a document as the loop uses it: `None` when there
      is none, it is empty, or YAML rejects it; otherwise what it parses to,
      with its tags restored. */
  function FrontmatterData(fm: Option<string>, load: string -> Option<Parsed>): Option<Parsed> {
    if fm.None? || fm.value == "" then None
    else
      match load(Protect(fm.value))
      case None => None
      case Some(data) => Some(RestoreAll(data, BindingsFrom(Tags(fm.value), 0)))
  }

  /** A document with a mapping as front matter: the counter moves on at its
      depth, an entry line joins the table of contents and its page starts
      with the heading. */
  function Numbered(acc: Acc, path: string, entries: seq<(string, Value)>, body: string,
                    cfg: Settings, heading: HeadingTemplate): (r: Result<Acc, ExportError>)
    requires |acc.numbering| >= 1
    ensures r.Success? ==> |r.value.numbering| >= 1 && |r.value.pages| == |acc.pages| + 1 && r.value.pages[..|acc.pages|] == acc.pages
    ensures r.Success? ==> var d := DocDepth(path, cfg);
              r.value.numbering == Advance(acc.numbering, d) && d < |r.value.numbering| &&
              r.value.toc == acc.toc + TocLine(d, FullTitle(Label(r.value.numbering, d), TitleOf(entries, path)))
    ensures r.Failure? <==> heading(FullTitle(Label(Advance(acc.numbering, DocDepth(path, cfg)), DocDepth(path, cfg)), TitleOf(entries, path)),
                                      DocPath(path, cfg), entries).None?
    ensures r.Success? ==> var d := DocDepth(path, cfg);
              var h := heading(FullTitle(Label(Advance(acc.numbering, d), d), TitleOf(entries, path)), DocPath(path, cfg), entries);
              h.Some? && r.value.pages[|acc.pages|] == h.value + body
  {
    var depth := DocDepth(path, cfg);
    var numbering := Advance(acc.numbering, depth);
    AdvanceShape(acc.numbering, depth);
    var fullTitle := FullTitle(Label(numbering, depth), TitleOf(entries, path));
    match heading(fullTitle, DocPath(path, cfg), entries)
    case None => Failure(HeadingFailed(path))
    case Some(h) => Success(Acc(numbering, acc.toc + TocLine(depth, fullTitle), acc.pages + [h + body]))
  }

  /** The entries of a document's front matter when it loads as a mapping:
      exactly the documents the loop numbers. */
  function MappingEntries(doc: Doc, cfg: Settings, load: string -> Option<Parsed>): Option<seq<(string, Value)>> {
    match ParseFrontmatter(Rewritten(doc.content, cfg))
    case Failure(_) => None
    case Success(sections) => SectionEntries(sections, load)
  }

  /** The entries of split-off front matter that loads as a mapping. */
  function SectionEntries(sections: Sections, load: string -> Option<Parsed>): Option<seq<(string, Value)>> {
    match FrontmatterData(sections.frontmatter, load)
    case Some(Mapping(entries)) => Some(entries)
    case _ => None
  }

  /** One pass of the loop over a document. */
  function Step(acc: Acc, doc: Doc, cfg: Settings, load: string -> Option<Parsed>,
                heading: HeadingTemplate, render: string -> string): (r: Result<Acc, ExportError>)
    requires |acc.numbering| >= 1
    ensures r.Success? ==> |r.value.numbering| >= 1 && |r.value.pages| == |acc.pages| + 1 && r.value.pages[..|acc.pages|] == acc.pages
    ensures r.Success? && MappingEntries(doc, cfg, load).None? ==>
              r.value.numbering == acc.numbering && r.value.toc == acc.toc
    ensures r.Success? && MappingEntries(doc, cfg, load).Some? ==>
              var d := DocDepth(doc.path, cfg);
              r.value.numbering == Advance(acc.numbering, d) && d < |r.value.numbering| &&
              r.value.toc == acc.toc + TocLine(d, FullTitle(Label(r.value.numbering, d), TitleOf(MappingEntries(doc, cfg, load).value, doc.path)))
  {
    match ParseFrontmatter(Rewritten(doc.content, cfg))
    case Failure(_) => Failure(MissingClosingLine(doc.path))
    case Success(sections) => Sectioned(acc, doc.path, sections, cfg, load, heading, render)
  }

  /** The rest of the pass, once the front matter is split off. */
  function Sectioned(acc: Acc, path: string, sections: Sections, cfg: Settings, load: string -> Option<Parsed>,
                     heading: HeadingTemplate, render: string -> string): (r: Result<Acc, ExportError>)
    requires |acc.numbering| >= 1
    ensures r.Success? ==> |r.value.numbering| >= 1 && |r.value.pages| == |acc.pages| + 1 && r.value.pages[..|acc.pages|] == acc.pages
    ensures r.Success? && SectionEntries(sections, load).None? ==>
              r.value.numbering == acc.numbering && r.value.toc == acc.toc
    ensures r.Success? && SectionEntries(sections, load).Some? ==>
              var d := DocDepth(path, cfg);
              r.value.numbering == Advance(acc.numbering, d) && d < |r.value.numbering| &&
              r.value.toc == acc.toc + TocLine(d, FullTitle(Label(r.value.numbering, d), TitleOf(SectionEntries(sections, load).value, path)))
  {
    var body := render(sections.content);
    match FrontmatterData(sections.frontmatter, load)
    case None => Success(Acc(acc.numbering, acc.toc, acc.pages + [body]))
    case Some(data) =>
      if data.NotMapping? then Failure(NotAMapping(path))
      else Numbered(acc, path, data.entries, body, cfg, heading)
  }

  /** The loop over the first documents; the first error ends it. */
  function Fold(docs: seq<Doc>, cfg: Settings, load: string -> Option<Parsed>,
                heading: HeadingTemplate, render: string -> string): (r: Result<Acc, ExportError>)
    ensures r.Success? ==> |r.value.numbering| >= 1 && |r.value.pages| == |docs|
    decreases |docs|
  {
    if docs == [] then Success(Acc([0], "", []))
    else
      match Fold(docs[..|docs| - 1], cfg, load, heading, render)
      case Failure(e) => Failure(e)
      case Success(acc) => Step(acc, docs[|docs| - 1], cfg, load, heading, render)
  }

  /** `sep.join(parts)` for a text separator. */
  function JoinWith(parts: seq<string>, sep: string): string
    decreases |parts|
  {
    if |parts| == 0 then ""
    else if |parts| == 1 then parts[0]
    else JoinWith(parts[..|parts| - 1], sep) + sep + parts[|parts| - 1]
  }

  /** What the loop produces for all documents. */
  function ExportAll(docs: seq<Doc>, cfg: Settings, load: string -> Option<Parsed>,
                     heading: HeadingTemplate, render: string -> string): Result<Exported, ExportError>
  {
    match Fold(docs, cfg, load, heading, render)
    case Failure(e) => Failure(e)
    case Success(acc) => Success(Exported(acc.toc, JoinWith(acc.pages, PageBreak)))
  }

  // ---------------------------------------------------------------------
  // process_files

  /** The front matter branch of the loop: protect the tags, parse, and put
      the tags back. */
  method LoadFrontmatter(frontmatter: Option<string>, load: string -> Option<Parsed>) returns (data: Option<Parsed>)
    ensures data == FrontmatterData(frontmatter, load)
  {
    data := None;
    if frontmatter.Some? && frontmatter.value != "" {
      var modified, htmlTags := PreprocessFrontmatter(frontmatter.value);
      var parsed := load(modified);
      if parsed.Some? {
        var restored := RestoreHtmlTags(parsed.value, htmlTags);
        data := Some(restored);
      }
    }
  }

  /** One pass of the loop: the counter moves on as `Step` says, and what
      the document adds to the table of contents and its page come back. */
  method VisitDoc(counter: TocCounter, doc: Doc, cfg: Settings, load: string -> Option<Parsed>,
                  heading: HeadingTemplate, render: string -> string, ghost acc: Acc)
    returns (r: Result<(string, string), ExportError>)
    requires counter.Valid() && counter.numbering == acc.numbering
    modifies counter
    ensures var next := Step(acc, doc, cfg, load, heading, render);
            (r.Failure? <==> next.Failure?) &&
            (r.Failure? ==> r.error == next.error) &&
            (r.Success? ==> counter.Valid() && counter.numbering == next.value.numbering &&
                            next.value.toc == acc.toc + r.value.0 &&
                            next.value.pages == acc.pages + [r.value.1])
  {
    var md := doc.content;
    if cfg.changeImgUrl {
      md := ProcessImagePaths(md, cfg.basePath, cfg.pathArgs);
    }
    md := PreprocessCodeBlocks(md);
    assert md == Rewritten(doc.content, cfg);
    var split := ParseFrontmatter(md);
    if split.Failure? {
      return Failure(MissingClosingLine(doc.path));
    }
    r := VisitSections(counter, doc.path, split.value, cfg, load, heading, render, acc);
  }

  /** The pass once the front matter is split off, as `Sectioned` says. */
  method VisitSections(counter: TocCounter, path: string, sections: Sections, cfg: Settings,
                       load: string -> Option<Parsed>, heading: HeadingTemplate, render: string -> string,
                       ghost acc: Acc)
    returns (r: Result<(string, string), ExportError>)
    requires counter.Valid() && counter.numbering == acc.numbering
    modifies counter
    ensures var next := Sectioned(acc, path, sections, cfg, load, heading, render);
            (r.Failure? <==> next.Failure?) &&
            (r.Failure? ==> r.error == next.error) &&
            (r.Success? ==> counter.Valid() && counter.numbering == next.value.numbering &&
                            next.value.toc == acc.toc + r.value.0 &&
                            next.value.pages == acc.pages + [r.value.1])
  {
    var body := render(sections.content);
    var data := LoadFrontmatter(sections.frontmatter, load);
    if data.None? {
      assert acc.toc + "" == acc.toc;
      return Success(("", body));
    }
    if data.value.NotMapping? {
      return Failure(NotAMapping(path));
    }
    r := VisitNumbered(counter, path, data.value.entries, body, cfg, heading, acc);
  }

  /** A numbered document: the counter moves on as `Numbered` says. */
  method VisitNumbered(counter: TocCounter, path: string, entries: seq<(string, Value)>, body: string,
                       cfg: Settings, heading: HeadingTemplate, ghost acc: Acc)
    returns (r: Result<(string, string), ExportError>)
    requires counter.Valid() && counter.numbering == acc.numbering
    modifies counter
    ensures var next := Numbered(acc, path, entries, body, cfg, heading);
            (r.Failure? <==> next.Failure?) &&
            (r.Failure? ==> r.error == next.error) &&
            (r.Success? ==> counter.Valid() && counter.numbering == next.value.numbering &&
                            next.value.toc == acc.toc + r.value.0 &&
                            next.value.pages == acc.pages + [r.value.1])
  {
    var depth := DocDepth(path, cfg);
    var numbering := counter.Visit(depth);
    var fullTitle := FullTitle(numbering, TitleOf(entries, path));
    var h := heading(fullTitle, DocPath(path, cfg), entries);
    if h.None? {
      return Failure(HeadingFailed(path));
    }
    r := Success((TocLine(depth, fullTitle), h.value + body));
  }

  /** The pages text after `i` of `n` documents: a page break follows every
      page but the last one. */
  ghost function PagesSoFar(pages: seq<string>, i: nat, n: nat): string {
    if i == 0 then "" else JoinWith(pages, PageBreak) + (if i < n then PageBreak else "")
  }

  lemma PagesSoFarStep(pages: seq<string>, page: string, i: nat, n: nat)
    requires |pages| == i < n
    ensures PagesSoFar(pages, i, n) + page + (if i < n - 1 then PageBreak else "") == PagesSoFar(pages + [page], i + 1, n)
  {
    var ps := pages + [page];
    assert ps[..|ps| - 1] == pages;
    if i == 0 {
      assert JoinWith(ps, PageBreak) == page;
    }
  }

  /** The loop over one more document is one more step. */
  lemma FoldSnoc(docs: seq<Doc>, cfg: Settings, load: string -> Option<Parsed>,
                 heading: HeadingTemplate, render: string -> string, i: nat, acc: Acc)
    requires i < |docs| && Fold(docs[..i], cfg, load, heading, render) == Success(acc)
    ensures |acc.numbering| >= 1
    ensures Fold(docs[..i + 1], cfg, load, heading, render) == Step(acc, docs[i], cfg, load, heading, render)
  {
    var pre := docs[..i + 1];
    assert pre[..|pre| - 1] == docs[..i] && pre[|pre| - 1] == docs[i];
    FoldLast(pre, cfg, load, heading, render, acc);
  }

  /** The loop over documents is the loop over all but the last, then one step. */
  lemma FoldLast(docs: seq<Doc>, cfg: Settings, load: string -> Option<Parsed>,
                 heading: HeadingTemplate, render: string -> string, acc: Acc)
    requires docs != [] && Fold(docs[..|docs| - 1], cfg, load, heading, render) == Success(acc)
    ensures Fold(docs, cfg, load, heading, render) == Step(acc, docs[|docs| - 1], cfg, load, heading, render)
  {
  }

  /** `process_files`, without the HTML wrapping: the loop over the documents
      with the counter kept in a `TocCounter` and the table of contents and
      the pages accumulated in place. */
  method ProcessFiles(docs: seq<Doc>, cfg: Settings, load: string -> Option<Parsed>,
                      heading: HeadingTemplate, render: string -> string)
    returns (r: Result<Exported, ExportError>)
    ensures r == ExportAll(docs, cfg, load, heading, render)
  {
    var counter := new TocCounter();
    var toc := "";
    var pages := "";
    ghost var acc := Acc([0], "", []);
    assert docs[..0] == [];
    for index := 0 to |docs|
      invariant counter.Valid()
      invariant Fold(docs[..index], cfg, load, heading, render) == Success(acc)
      invariant counter.numbering == acc.numbering && toc == acc.toc
      invariant pages == PagesSoFar(acc.pages, index, |docs|)
    {
      FoldSnoc(docs, cfg, load, heading, render, index, acc);
      var visit := VisitDoc(counter, docs[index], cfg, load, heading, render, acc);
      if visit.Failure? {
        assert Fold(docs[..index + 1], cfg, load, heading, render) == Failure(visit.error);
        FailureSticks(docs, cfg, load, heading, render, index + 1);
        return Failure(visit.error);
      }
      var (tocLine, page) := visit.value;
      toc := toc + tocLine;
      PagesSoFarStep(acc.pages, page, index, |docs|);
      pages := pages + page;
      if index < |docs| - 1 {
        pages := pages + PageBreak;
      }
      acc := Step(acc, docs[index], cfg, load, heading, render).value;
    }
    assert docs[..|docs|] == docs;
    assert Fold(docs, cfg, load, heading, render) == Success(acc);
    assert pages == JoinWith(acc.pages, PageBreak);
    r := Success(Exported(toc, pages));
  }

  // ---------------------------------------------------------------------
  // Properties of the loop

  /** The first error ends the export: what follows is never looked at. */
  lemma {:induction false} FailureSticks(docs: seq<Doc>, cfg: Settings, load: string -> Option<Parsed>,
                                         heading: HeadingTemplate, render: string -> string, n: nat)
    requires n <= |docs| && Fold(docs[..n], cfg, load, heading, render).Failure?
    ensures ExportAll(docs, cfg, load, heading, render) == Failure(Fold(docs[..n], cfg, load, heading, render).error)
    decreases |docs| - n
  {
    if n == |docs| {
      assert docs[..n] == docs;
    } else {
      assert docs[..n + 1][..n] == docs[..n];
      FailureSticks(docs, cfg, load, heading, render, n + 1);
    }
  }

  /** A document that opens a front matter block it never closes ends the
      export with its own path, once the documents before it went through. */
  lemma UnclosedFrontmatterFails(docs: seq<Doc>, cfg: Settings, load: string -> Option<Parsed>,
                                 heading: HeadingTemplate, render: string -> string, i: nat)
    requires i < |docs| && Fold(docs[..i], cfg, load, heading, render).Success?
    requires var lines := Split(Rewritten(docs[i].content, cfg), '\n');
             Strip(lines[0]) == "---" && forall k :: 1 <= k < |lines| ==> lines[k] != "---"
    ensures ExportAll(docs, cfg, load, heading, render) == Failure(MissingClosingLine(docs[i].path))
  {
    FoldSnoc(docs, cfg, load, heading, render, i, Fold(docs[..i], cfg, load, heading, render).value);
    FailureSticks(docs, cfg, load, heading, render, i + 1);
  }

  /** The table of contents of numbered documents at `depths`, labelled
      `labels` and titled `titles`: one entry line each, in order. */
  function TocText(labels: seq<string>, depths: seq<nat>, titles: seq<string>): string
    requires |labels| == |depths| == |titles|
    decreases |depths|
  {
    if depths == [] then ""
    else
      var n := |depths| - 1;
      TocText(labels[..n], depths[..n], titles[..n]) + TocLine(depths[n], FullTitle(labels[n], titles[n]))
  }

  lemma TocTextSnoc(labels: seq<string>, depths: seq<nat>, titles: seq<string>, number: string, d: nat, title: string)
    requires |labels| == |depths| == |titles|
    ensures TocText(labels + [number], depths + [d], titles + [title])
            == TocText(labels, depths, titles) + TocLine(d, FullTitle(number, title))
  {
    var n := |depths|;
    assert (labels + [number])[..n] == labels && (depths + [d])[..n] == depths && (titles + [title])[..n] == titles;
  }

  /** The counter and the table of contents are those of the numbered
      documents so far: at `depths`, titled `titles`, and labelled as a
      fresh counter labels those depths. */
  ghost predicate NumberedSoFar(acc: Acc, depths: seq<nat>, titles: seq<string>) {
    |titles| == |depths| && acc.numbering == Final([0], depths) &&
    acc.toc == TocText(Labels([0], depths), depths, titles)
  }

  /** The depths of the documents the loop numbers, in order. */
  function NumberedDepths(docs: seq<Doc>, cfg: Settings, load: string -> Option<Parsed>): (ds: seq<nat>)
    ensures |ds| <= |docs|
    decreases |docs|
  {
    if docs == [] then []
    else
      var last := docs[|docs| - 1];
      NumberedDepths(docs[..|docs| - 1], cfg, load) +
      (if MappingEntries(last, cfg, load).Some? then [DocDepth(last.path, cfg)] else [])
  }

  /** The titles of the documents the loop numbers, in order. */
  function NumberedTitles(docs: seq<Doc>, cfg: Settings, load: string -> Option<Parsed>): (ts: seq<string>)
    ensures |ts| == |NumberedDepths(docs, cfg, load)|
    decreases |docs|
  {
    if docs == [] then []
    else
      var last := docs[|docs| - 1];
      NumberedTitles(docs[..|docs| - 1], cfg, load) +
      (match MappingEntries(last, cfg, load)
       case Some(entries) => [TitleOf(entries, last.path)]
       case None => [])
  }

  /** A pass of the loop keeps the table of contents that of the numbered
      documents, with one more entry when this document is numbered. */
  lemma NumberedStep(a: Acc, acc: Acc, doc: Doc, cfg: Settings, load: string -> Option<Parsed>,
                     heading: HeadingTemplate, render: string -> string, depths: seq<nat>, titles: seq<string>)
    requires |a.numbering| >= 1 && NumberedSoFar(a, depths, titles)
    requires Step(a, doc, cfg, load, heading, render) == Success(acc)
    ensures MappingEntries(doc, cfg, load).None? ==> NumberedSoFar(acc, depths, titles)
    ensures MappingEntries(doc, cfg, load).Some? ==>
              NumberedSoFar(acc, depths + [DocDepth(doc.path, cfg)],
                            titles + [TitleOf(MappingEntries(doc, cfg, load).value, doc.path)])
  {
    match MappingEntries(doc, cfg, load)
    case None =>
    case Some(entries) =>
      NumberedNext(a, acc, depths, titles, DocDepth(doc.path, cfg), TitleOf(entries, doc.path));
  }

  lemma NumberedNext(a: Acc, acc: Acc, depths: seq<nat>, titles: seq<string>, d: nat, title: string)
    requires NumberedSoFar(a, depths, titles)
    requires acc.numbering == Advance(a.numbering, d) && d < |acc.numbering|
    requires acc.toc == a.toc + TocLine(d, FullTitle(Label(acc.numbering, d), title))
    ensures NumberedSoFar(acc, depths + [d], titles + [title])
  {
    LabelsSnoc([0], depths, d);
    TocTextSnoc(Labels([0], depths), depths, titles, Label(acc.numbering, d), d, title);
  }

  /** The loop over any documents builds the table of contents of the
      numbered ones. */
  lemma {:induction false} FoldNumbered(docs: seq<Doc>, cfg: Settings, load: string -> Option<Parsed>,
                                        heading: HeadingTemplate, render: string -> string, acc: Acc)
    requires Fold(docs, cfg, load, heading, render) == Success(acc)
    ensures NumberedSoFar(acc, NumberedDepths(docs, cfg, load), NumberedTitles(docs, cfg, load))
    decreases |docs|
  {
    if docs != [] {
      var init, last := docs[..|docs| - 1], docs[|docs| - 1];
      var a := Fold(init, cfg, load, heading, render).value;
      FoldNumbered(init, cfg, load, heading, render, a);
      FoldLast(docs, cfg, load, heading, render, a);
      var depths, titles := NumberedDepths(init, cfg, load), NumberedTitles(init, cfg, load);
      NumberedStep(a, acc, last, cfg, load, heading, render, depths, titles);
      NumberedSnoc(docs, cfg, load);
    }
  }

  /** The numbered documents of a list are those of all but its last
      document, then the last one when it is numbered. */
  lemma NumberedSnoc(docs: seq<Doc>, cfg: Settings, load: string -> Option<Parsed>)
    requires docs != []
    ensures var init, last := docs[..|docs| - 1], docs[|docs| - 1];
            if MappingEntries(last, cfg, load).Some? then
              NumberedDepths(docs, cfg, load) == NumberedDepths(init, cfg, load) + [DocDepth(last.path, cfg)] &&
              NumberedTitles(docs, cfg, load) == NumberedTitles(init, cfg, load) + [TitleOf(MappingEntries(last, cfg, load).value, last.path)]
            else
              NumberedDepths(docs, cfg, load) == NumberedDepths(init, cfg, load) &&
              NumberedTitles(docs, cfg, load) == NumberedTitles(init, cfg, load)
  {
  }

  /** The exported table of contents has one entry line per numbered
      document, in order: its depth, its title, and the label a fresh
      counter gives it. No two of those labels are equal. */
  lemma ExportTocNumbered(docs: seq<Doc>, cfg: Settings, load: string -> Option<Parsed>,
                          heading: HeadingTemplate, render: string -> string)
    requires ExportAll(docs, cfg, load, heading, render).Success?
    ensures var depths := NumberedDepths(docs, cfg, load);
            ExportAll(docs, cfg, load, heading, render).value.toc
              == TocText(Labels([0], depths), depths, NumberedTitles(docs, cfg, load)) &&
            forall s, t :: 0 <= s < t < |depths| ==> Labels([0], depths)[s] != Labels([0], depths)[t]
  {
    var acc := Fold(docs, cfg, load, heading, render).value;
    FoldNumbered(docs, cfg, load, heading, render, acc);
    var depths := NumberedDepths(docs, cfg, load);
    forall s, t | 0 <= s < t < |depths|
      ensures Labels([0], depths)[s] != Labels([0], depths)[t]
    {
      LabelsUnique([0], depths, s, t);
    }
  }

  /** A document whose rewritten text opens a front matter block it never
      closes fails with its path. */
  lemma StepMissingClosingLine(acc: Acc, doc: Doc, cfg: Settings, load: string -> Option<Parsed>,
                               heading: HeadingTemplate, render: string -> string)
    requires |acc.numbering| >= 1
    requires ParseFrontmatter(Rewritten(doc.content, cfg)).Failure?
    ensures Step(acc, doc, cfg, load, heading, render) == Failure(MissingClosingLine(doc.path))
  {
  }

  /** A document whose front matter is missing, empty or rejected by YAML is
      not numbered and does not stop the loop: the counter and the table of
      contents stay, and its page is its rendered content. */
  lemma StepSkipsUnloaded(acc: Acc, doc: Doc, cfg: Settings, load: string -> Option<Parsed>,
                          heading: HeadingTemplate, render: string -> string, sections: Sections)
    requires |acc.numbering| >= 1
    requires ParseFrontmatter(Rewritten(doc.content, cfg)) == Success(sections)
    requires sections.frontmatter.None? || sections.frontmatter.value == "" ||
             load(Protect(sections.frontmatter.value)).None?
    ensures Step(acc, doc, cfg, load, heading, render)
            == Success(Acc(acc.numbering, acc.toc, acc.pages + [render(sections.content)]))
    ensures MappingEntries(doc, cfg, load).None?
  {
  }

  /** A document whose front matter loads as a mapping is numbered, with
      its restored entries and its rendered content as the page body. */
  lemma StepNumbersMapping(acc: Acc, doc: Doc, cfg: Settings, load: string -> Option<Parsed>,
                           heading: HeadingTemplate, render: string -> string, sections: Sections,
                           entries: seq<(string, Value)>)
    requires |acc.numbering| >= 1
    requires ParseFrontmatter(Rewritten(doc.content, cfg)) == Success(sections)
    requires FrontmatterData(sections.frontmatter, load) == Some(Mapping(entries))
    ensures Step(acc, doc, cfg, load, heading, render)
            == Numbered(acc, doc.path, entries, render(sections.content), cfg, heading)
    ensures MappingEntries(doc, cfg, load) == Some(entries)
  {
  }

  /** Front matter that loads as something other than a mapping ends the
      export with the document's path (`data.get` raises). */
  lemma StepRejectsNonMapping(acc: Acc, doc: Doc, cfg: Settings, load: string -> Option<Parsed>,
                              heading: HeadingTemplate, render: string -> string, sections: Sections)
    requires |acc.numbering| >= 1
    requires ParseFrontmatter(Rewritten(doc.content, cfg)) == Success(sections)
    requires FrontmatterData(sections.frontmatter, load).Some? && FrontmatterData(sections.frontmatter, load).value.NotMapping?
    ensures Step(acc, doc, cfg, load, heading, render) == Failure(NotAMapping(doc.path))
  {
  }

  /** Text with no front matter gets no table-of-contents entry: the counter
      and the table stay as they were and the page is the rendered text. */
  lemma PlainDocumentUnnumbered(acc: Acc, doc: Doc, cfg: Settings, load: string -> Option<Parsed>,
                                heading: HeadingTemplate, render: string -> string)
    requires |acc.numbering| >= 1
    requires Strip(Split(Rewritten(doc.content, cfg), '\n')[0]) != "---"
    ensures Step(acc, doc, cfg, load, heading, render)
            == Success(Acc(acc.numbering, acc.toc, acc.pages + [render(Rewritten(doc.content, cfg))]))
  {
  }

  /** The joined length is the parts' total and one separator fewer than
      there are parts, and the join ends with the last part. */
  lemma {:induction false} JoinWithLength(parts: seq<string>, sep: string)
    requires parts != []
    ensures |JoinWith(parts, sep)| == TotalLength(parts) + (|parts| - 1) * |sep|
    ensures var j := JoinWith(parts, sep);
            j[|j| - |parts[|parts| - 1]|..] == parts[|parts| - 1]
    decreases |parts|
  {
    var n := |parts|;
    if n > 1 {
      var init := parts[..n - 1];
      JoinWithLength(init, sep);
      TotalSnoc(init, parts[n - 1]);
      assert init + [parts[n - 1]] == parts;
      assert (n - 1) * |sep| == (n - 2) * |sep| + |sep|;
    }
  }

  /** Cut anywhere between two parts, the joined text is the join of the
      parts before the cut, one separator, and the join of the parts after
      it: exactly one separator stands between consecutive parts. */
  lemma {:induction false} JoinWithSplit(parts: seq<string>, sep: string, k: nat)
    requires 0 < k < |parts|
    ensures JoinWith(parts, sep) == JoinWith(parts[..k], sep) + sep + JoinWith(parts[k..], sep)
    decreases |parts|
  {
    var n := |parts|;
    var init := parts[..n - 1];
    assert parts[k..][..|parts[k..]| - 1] == init[k..] by {
      assert parts[k..][..n - 1 - k] == parts[k..n - 1];
    }
    if k < n - 1 {
      JoinWithSplit(init, sep, k);
      assert init[..k] == parts[..k];
    } else {
      assert parts[k..] == [parts[n - 1]];
    }
  }

  function TotalLength(parts: seq<string>): nat
    decreases |parts|
  {
    if parts == [] then 0 else |parts[0]| + TotalLength(parts[1..])
  }

  lemma {:induction false} TotalSnoc(parts: seq<string>, p: string)
    ensures TotalLength(parts + [p]) == TotalLength(parts) + |p|
    decreases |parts|
  {
    if parts != [] {
      assert (parts + [p])[1..] == parts[1..] + [p];
      TotalSnoc(parts[1..], p);
    } else {
      assert [] + [p] == [p];
    }
  }
}

/** The front matter of a document: `parse_frontmatter` cuts the YAML block
    off the text; `preprocess_frontmatter` hides every HTML tag in it behind a
    numbered placeholder so the YAML parser does not see the tags; and
    `restore_html_tags` puts the tags back into the parsed string values and
    escapes them for HTML. */
module Frontmatter {
  import opened Wrappers
  import opened Text
  import opened Scanner

  // ---------------------------------------------------------------------
  // parse_frontmatter

  /** The YAML block between the `---` lines, if there is one, and the rest of the document. */
  datatype Sections = Sections(frontmatter: Option<string>, content: string)

  /** `lines.index('---', 1)` raises `ValueError` when no closing line follows. */
  datatype FrontmatterError = NoClosingLine

  /** `lines.index(x, from)`: the first position at or after `from` holding `x`. */
  function IndexFrom(lines: seq<string>, x: string, from: nat): (r: Option<nat>)
    ensures r.Some? ==> from <= r.value < |lines| && lines[r.value] == x &&
                        forall i :: from <= i < r.value ==> lines[i] != x
    ensures r.None? ==> forall i :: from <= i < |lines| ==> lines[i] != x
    decreases |lines| - from
  {
    if from >= |lines| then None
    else if lines[from] == x then Some(from)
    else IndexFrom(lines, x, from + 1)
  }

  /** `parse_frontmatter`: when the first line strips to `---`, the lines up to
      the next line that is exactly `---` are the front matter and the lines
      after it the content; otherwise there is no front matter and the text is
      all content. */
  function ParseFrontmatter(md: string): (r: Result<Sections, FrontmatterError>)
    ensures var lines := Split(md, '\n');
            (Strip(lines[0]) != "---" ==> r == Success(Sections(None, md))) &&
            (Strip(lines[0]) == "---" ==>
               (r.Failure? <==> forall i :: 1 <= i < |lines| ==> lines[i] != "---") &&
               (r.Success? ==>
                  r.value.frontmatter.Some? &&
                  exists e :: 1 <= e < |lines| && lines[e] == "---" &&
                              (forall i :: 1 <= i < e ==> lines[i] != "---") &&
                              r.value.frontmatter.value == Join(lines[1..e], '\n') &&
                              r.value.content == Join(lines[e + 1..], '\n')))
  {
    var lines := Split(md, '\n');
    if Strip(lines[0]) == "---" then
      match IndexFrom(lines, "---", 1)
      case None => Failure(NoClosingLine)
      case Some(e) => Success(Sections(Some(Join(lines[1..e], '\n')), Join(lines[e + 1..], '\n')))
    else Success(Sections(None, md))
  }

  /** Splitting at a separator splits the two sides independently. */
  lemma {:induction false} SplitAround(a: string, b: string, sep: char)
    ensures Split(a + [sep] + b, sep) == Split(a, sep) + Split(b, sep)
    decreases |a|
  {
    if a == [] {
      assert a + [sep] + b == [sep] + b;
      SplitCons(sep, b, sep);
    } else {
      var tail := a[1..] + [sep] + b;
      assert a + [sep] + b == [a[0]] + tail;
      assert a == [a[0]] + a[1..];
      SplitAround(a[1..], b, sep);
      SplitCons(a[0], tail, sep);
      SplitCons(a[0], a[1..], sep);
      SplitJoinFront(a[0], Split(a[1..], sep), Split(b, sep), sep);
    }
  }

  /** `split` on a text that starts with `c`. */
  lemma SplitCons(c: char, s: string, sep: char)
    ensures Split([c] + s, sep)
            == if c == sep then [""] + Split(s, sep) else [[c] + Split(s, sep)[0]] + Split(s, sep)[1..]
  {
    assert ([c] + s)[1..] == s;
  }

  /** Putting a first character in front of two runs of parts. */
  lemma SplitJoinFront(c: char, ra: seq<string>, rb: seq<string>, sep: char)
    requires ra != []
    ensures (if c == sep then [""] + (ra + rb) else [[c] + (ra + rb)[0]] + (ra + rb)[1..])
            == (if c == sep then [""] + ra else [[c] + ra[0]] + ra[1..]) + rb
  {
    if c != sep {
      assert (ra + rb)[0] == ra[0];
      assert (ra + rb)[1..] == ra[1..] + rb;
    }
  }

  /** A document written as an opening line, a front matter block, the
      closing `---` line and the content. */
  function Compose(opener: string, frontmatter: string, content: string): string {
    opener + "\n" + frontmatter + "\n---\n" + content
  }

  /** The lines of a composed document. */
  lemma ComposedLines(opener: string, frontmatter: string, content: string)
    requires '\n' !in opener
    ensures Split(Compose(opener, frontmatter, content), '\n')
            == [opener] + Split(frontmatter, '\n') + ["---"] + Split(content, '\n')
  {
    var tail := "---" + ['\n'] + content;
    var mid := frontmatter + ['\n'] + tail;
    var sf, sc := Split(frontmatter, '\n'), Split(content, '\n');
    calc {
      Split(Compose(opener, frontmatter, content), '\n');
    == { assert Compose(opener, frontmatter, content) == opener + ['\n'] + mid; }
      Split(opener + ['\n'] + mid, '\n');
    == { SplitAround(opener, mid, '\n'); SplitWhole(opener, '\n'); }
      [opener] + Split(mid, '\n');
    == { SplitAround(frontmatter, tail, '\n'); }
      [opener] + (sf + Split(tail, '\n'));
    == { SplitAround("---", content, '\n'); SplitWhole("---", '\n'); }
      [opener] + (sf + (["---"] + sc));
    == 
      [opener] + sf + ["---"] + sc;
    }
  }

  /** Writing a document with a front matter block and parsing it gives the
      block and the content back, provided no line of the block is `---`. */
  lemma ComposeThenParse(opener: string, frontmatter: string, content: string)
    requires '\n' !in opener && Strip(opener) == "---"
    requires forall i :: 0 <= i < |Split(frontmatter, '\n')| ==> Split(frontmatter, '\n')[i] != "---"
    ensures ParseFrontmatter(Compose(opener, frontmatter, content))
            == Success(Sections(Some(frontmatter), content))
  {
    var fmLines := Split(frontmatter, '\n');
    var bodyLines := Split(content, '\n');
    var lines := [opener] + fmLines + ["---"] + bodyLines;
    var e := 1 + |fmLines|;
    assert Split(Compose(opener, frontmatter, content), '\n') == lines by {
      ComposedLines(opener, frontmatter, content);
    }
    assert IndexFrom(lines, "---", 1) == Some(e) && lines[1..e] == fmLines && lines[e + 1..] == bodyLines by {
      ClosedAfterBlock(opener, fmLines, bodyLines, "---");
    }
    assert lines[0] == opener;
    assert Join(fmLines, '\n') == frontmatter by {
      JoinSplit(frontmatter, '\n');
    }
    assert Join(bodyLines, '\n') == content by {
      JoinSplit(content, '\n');
    }
  }

  /** Lines made of an opener, a block without the line `x`, `x` and more
      lines: the first `x` after the opener closes the block. */
  lemma ClosedAfterBlock(opener: string, block: seq<string>, after: seq<string>, x: string)
    requires forall i :: 0 <= i < |block| ==> block[i] != x
    ensures var lines := [opener] + block + [x] + after;
            IndexFrom(lines, x, 1) == Some(1 + |block|) &&
            lines[1..1 + |block|] == block && lines[2 + |block|..] == after
  {
    var lines := [opener] + block + [x] + after;
    var front := [opener] + block;
    assert lines == front + ([x] + after);
    var e := 1 + |block|;
    assert lines[e] == x;
    forall i | 1 <= i < e
      ensures lines[i] != x
    {
      assert lines[i] == front[i] == block[i - 1];
    }
    var r := IndexFrom(lines, x, 1);
    if r.None? || r.value != e {
      assert false;
    }
    assert lines[1..e] == block;
    assert lines[e + 1..] == after;
  }

  // ---------------------------------------------------------------------
  // The tag pattern <[^>]+>

  /** A text the pattern `<[^>]+>` matches as a whole. */
  predicate IsTag(t: string) {
    |t| >= 3 && t[0] == '<' && t[|t| - 1] == '>' && forall i :: 0 < i < |t| - 1 ==> t[i] != '>'
  }

  /** The tag at the front of `t`; what it is replaced by is the tag itself,
      so that the scan also reports the tags in order. */
  function TagMatch(t: string): (r: Option<Match>)
    ensures r.Some? ==> 0 < r.value.len <= |t| && r.value.repl == t[..r.value.len] && IsTag(r.value.repl)
  {
    if t == [] || t[0] != '<' then None
    else
      var k := RunUntil(t[1..], '>');
      if k == 0 || k + 1 == |t| then None
      else
        TagShape(t, k);
        Some(Match(k + 2, t[..k + 2]))
  }

  lemma TagShape(t: string, k: nat)
    requires t != [] && t[0] == '<' && 0 < k && k + 1 < |t|
    requires forall i :: 0 <= i < k ==> t[1..][i] != '>'
    requires t[1..][k] == '>'
    ensures IsTag(t[..k + 2])
  {
    var r := t[..k + 2];
    forall i | 0 < i < |r| - 1
      ensures r[i] != '>'
    {
      assert r[i] == t[1..][i - 1];
    }
  }

  lemma TagMatchAdvances()
    ensures Advances(TagMatch)
  {
  }

  /** A tag at the front of a text is matched, whatever follows it. */
  lemma TagMatchComplete(tag: string, rest: string)
    requires IsTag(tag)
    ensures TagMatch(tag + rest) == Some(Match(|tag|, tag))
  {
    var t := tag + rest;
    assert forall i :: 0 <= i < |tag| - 2 ==> t[1..][i] == tag[i + 1];
    assert t[1..][|tag| - 2] == '>';
    assert RunUntil(t[1..], '>') == |tag| - 2;
    assert t[..|tag|] == tag;
  }

  // ---------------------------------------------------------------------
  // preprocess_frontmatter

  /** `f"HTML_TAG_{n}"`. */
  function Placeholder(n: nat): (p: string)
    ensures |p| >= 10 && p[..9] == "HTML_TAG_" && AllDigits(p[9..])
  {
    "HTML_TAG_" + NatToString(n)
  }

  /** The tags of the front matter, in the order the scan meets them. */
  function Tags(fm: string): seq<string> {
    TagMatchAdvances();
    FindAll(fm, TagMatch)
  }

  /** Every recorded tag matches the pattern. */
  lemma TagsAreTags(fm: string)
    ensures forall k :: 0 <= k < |Tags(fm)| ==> IsTag(Tags(fm)[k])
  {
    TagMatchAdvances();
    forall k | 0 <= k < |FindAll(fm, TagMatch)|
      ensures IsTag(FindAll(fm, TagMatch)[k])
    {
      FoundAtSomePosition(fm, TagMatch, k);
    }
  }

  /** The `html_tags` dictionary, in insertion order: placeholder to tag. */
  datatype Binding = Binding(placeholder: string, tag: string)

  /** The bindings of `ts`, numbered from `n`. */
  function BindingsFrom(ts: seq<string>, n: nat): (bs: seq<Binding>)
    ensures |bs| == |ts|
    decreases |ts|
  {
    if ts == [] then [] else [Binding(Placeholder(n), ts[0])] + BindingsFrom(ts[1..], n + 1)
  }

  /** The `k`-th binding is the `k`-th tag under placeholder `n + k`. */
  lemma {:induction false} BindingAt(ts: seq<string>, n: nat, k: nat)
    requires k < |ts|
    ensures BindingsFrom(ts, n)[k] == Binding(Placeholder(n + k), ts[k])
    decreases k
  {
    if k > 0 {
      var m := n + 1;
      assert BindingsFrom(ts, n)[k] == BindingsFrom(ts[1..], m)[k - 1];
      assert BindingsFrom(ts[1..], m)[k - 1] == Binding(Placeholder(n + k), ts[k]) by {
        BindingAt(ts[1..], m, k - 1);
        assert ts[1..][k - 1] == ts[k] && m + (k - 1) == n + k;
      }
    }
  }

  /** The text with its tags numbered from `n` on, of which those numbered
      below `j` are shown as themselves and the others as their placeholders. */
  function Restored(ps: seq<Piece>, n: nat, j: nat): string
    decreases |ps|
  {
    if ps == [] then ""
    else match ps[0]
      case Keep(c) => [c] + Restored(ps[1..], n, j)
      case Hit(_, r) => (if n < j then r else Placeholder(n)) + Restored(ps[1..], n + 1, j)
  }

  /** The front matter with every tag replaced by its placeholder. */
  function Protect(fm: string): string {
    TagMatchAdvances();
    Restored(Pieces(fm, TagMatch), 0, 0)
  }

  /** A tag at the front takes placeholder `n`; the scan resumes after it with `n + 1`. */
  lemma ProtectHit(s: string, n: nat)
    requires Advances(TagMatch) && TagMatch(s).Some?
    ensures var h := TagMatch(s).value;
            Restored(Pieces(s, TagMatch), n, 0) == Placeholder(n) + Restored(Pieces(s[h.len..], TagMatch), n + 1, 0) &&
            BindingsFrom(FindAll(s, TagMatch), n)
              == [Binding(Placeholder(n), h.repl)] + BindingsFrom(FindAll(s[h.len..], TagMatch), n + 1)
  {
    var h := TagMatch(s).value;
    var ps := Pieces(s, TagMatch);
    assert ps[1..] == Pieces(s[h.len..], TagMatch);
    var ts := FindAll(s, TagMatch);
    assert ts == [h.repl] + FindAll(s[h.len..], TagMatch);
    assert ts[1..] == FindAll(s[h.len..], TagMatch);
  }

  /** A character where no tag starts is kept, and the numbering goes on unchanged. */
  lemma ProtectKeep(s: string, n: nat)
    requires Advances(TagMatch) && s != [] && TagMatch(s).None?
    ensures Restored(Pieces(s, TagMatch), n, 0) == [s[0]] + Restored(Pieces(s[1..], TagMatch), n, 0)
    ensures FindAll(s, TagMatch) == FindAll(s[1..], TagMatch)
  {
    var ps := Pieces(s, TagMatch);
    assert ps[1..] == Pieces(s[1..], TagMatch);
  }

  lemma Regroup<T>(a: seq<T>, b: seq<T>, c: seq<T>)
    ensures (a + b) + c == a + (b + c)
  {
  }

  /** The loop of `preprocess_frontmatter` after the first `i` characters:
      what is built so far, followed by what the rest turns into, is the
      whole result. */
  ghost predicate ProtectedUpTo(fm: string, i: nat, modified: string, htmlTags: seq<Binding>) {
    TagMatchAdvances();
    i <= |fm| &&
    modified + Restored(Pieces(fm[i..], TagMatch), |htmlTags|, 0) == Protect(fm) &&
    htmlTags + BindingsFrom(FindAll(fm[i..], TagMatch), |htmlTags|) == BindingsFrom(Tags(fm), 0)
  }

  lemma ProtectedStart(fm: string)
    ensures ProtectedUpTo(fm, 0, "", [])
  {
    TagMatchAdvances();
    assert fm[0..] == fm;
    assert "" + Protect(fm) == Protect(fm);
    assert [] + BindingsFrom(Tags(fm), 0) == BindingsFrom(Tags(fm), 0);
  }

  lemma ProtectedDone(fm: string, modified: string, htmlTags: seq<Binding>)
    requires ProtectedUpTo(fm, |fm|, modified, htmlTags)
    ensures modified == Protect(fm) && htmlTags == BindingsFrom(Tags(fm), 0)
  {
    TagMatchAdvances();
    assert fm[|fm|..] == [];
    assert modified + "" == modified;
    assert htmlTags + [] == htmlTags;
  }

  /** A tag at position `i` is replaced by the next placeholder and recorded
      under it: the loop goes on at `i2` with `modified2` and `htmlTags2`. */
  lemma ProtectHitStep(fm: string, i: nat, modified: string, htmlTags: seq<Binding>, h: Match,
                       i2: nat, modified2: string, htmlTags2: seq<Binding>)
    requires i < |fm| && ProtectedUpTo(fm, i, modified, htmlTags)
    requires Advances(TagMatch) && TagMatch(fm[i..]) == Some(h)
    requires i2 == i + h.len && modified2 == modified + Placeholder(|htmlTags|)
    requires htmlTags2 == htmlTags + [Binding(Placeholder(|htmlTags|), h.repl)]
    ensures ProtectedUpTo(fm, i2, modified2, htmlTags2)
  {
    var s := fm[i..];
    var rest := fm[i2..];
    assert s[h.len..] == rest;
    HitPlaceholder(s, |htmlTags|, rest, modified, modified2);
    HitRecorded(s, |htmlTags|, rest, htmlTags, htmlTags2);
  }

  lemma HitPlaceholder(s: string, n: nat, rest: string, modified: string, modified2: string)
    requires Advances(TagMatch) && TagMatch(s).Some? && s[TagMatch(s).value.len..] == rest
    requires modified2 == modified + Placeholder(n)
    ensures modified2 + Restored(Pieces(rest, TagMatch), n + 1, 0) == modified + Restored(Pieces(s, TagMatch), n, 0)
  {
    ProtectHit(s, n);
    Regroup(modified, Placeholder(n), Restored(Pieces(rest, TagMatch), n + 1, 0));
  }

  lemma HitRecorded(s: string, n: nat, rest: string, htmlTags: seq<Binding>, htmlTags2: seq<Binding>)
    requires Advances(TagMatch) && TagMatch(s).Some? && s[TagMatch(s).value.len..] == rest
    requires htmlTags2 == htmlTags + [Binding(Placeholder(n), TagMatch(s).value.repl)]
    ensures htmlTags2 + BindingsFrom(FindAll(rest, TagMatch), n + 1) == htmlTags + BindingsFrom(FindAll(s, TagMatch), n)
  {
    ProtectHit(s, n);
    Regroup(htmlTags, [Binding(Placeholder(n), TagMatch(s).value.repl)], BindingsFrom(FindAll(rest, TagMatch), n + 1));
  }

  /** A character where no tag starts is copied. */
  lemma ProtectKeepStep(fm: string, i: nat, modified: string, htmlTags: seq<Binding>,
                        i2: nat, modified2: string)
    requires i < |fm| && ProtectedUpTo(fm, i, modified, htmlTags)
    requires Advances(TagMatch) && TagMatch(fm[i..]).None?
    requires i2 == i + 1 && modified2 == modified + [fm[i]]
    ensures ProtectedUpTo(fm, i2, modified2, htmlTags)
  {
    var s := fm[i..];
    ProtectKeep(s, |htmlTags|);
    assert s[1..] == fm[i2..];
    Regroup(modified, [fm[i]], Restored(Pieces(fm[i2..], TagMatch), |htmlTags|, 0));
  }

  /** `preprocess_frontmatter`: `re.sub` calls back for each tag, which takes
      the next number for its placeholder and records the tag under it. */
  method PreprocessFrontmatter(fm: string) returns (modified: string, htmlTags: seq<Binding>)
    ensures modified == Protect(fm)
    ensures htmlTags == BindingsFrom(Tags(fm), 0)
  {
    TagMatchAdvances();
    modified, htmlTags := "", [];
    var i := 0;
    ProtectedStart(fm);
    while i < |fm|
      invariant ProtectedUpTo(fm, i, modified, htmlTags)
      decreases |fm| - i
    {
      ghost var i0, modified0, htmlTags0 := i, modified, htmlTags;
      match TagMatch(fm[i..])
      case Some(h) =>
        var placeholder := Placeholder(|htmlTags|);
        htmlTags := htmlTags + [Binding(placeholder, h.repl)];
        modified := modified + placeholder;
        i := i + h.len;
        ProtectHitStep(fm, i0, modified0, htmlTags0, h, i, modified, htmlTags);
      case None =>
        modified := modified + [fm[i]];
        i := i + 1;
        ProtectKeepStep(fm, i0, modified0, htmlTags0, i, modified);
    }
    ProtectedDone(fm, modified, htmlTags);
  }

  // ---------------------------------------------------------------------
  // Putting the tags back

  /** `value.replace(placeholder, tag)` for each binding, in insertion order. */
  function ReplaceEach(v: string, bs: seq<Binding>): string
    decreases |bs|
  {
    if bs == [] then v else ReplaceEach(ReplaceAll(v, bs[0].placeholder, bs[0].tag), bs[1..])
  }

  /** Pieces whose every match is a tag reported as itself. */
  predicate TagPieces(ps: seq<Piece>) {
    forall k :: 0 <= k < |ps| && ps[k].Hit? ==> IsTag(ps[k].repl) && ps[k].text == ps[k].repl
  }

  lemma TagPiecesRest(ps: seq<Piece>)
    requires TagPieces(ps) && ps != []
    ensures TagPieces(ps[1..])
  {
    forall k | 0 <= k < |ps[1..]| && ps[1..][k].Hit?
      ensures IsTag(ps[1..][k].repl) && ps[1..][k].text == ps[1..][k].repl
    {
      assert ps[1..][k] == ps[k + 1];
    }
  }

  /** Scanning for tags cuts the text into kept characters and tags. */
  lemma {:induction false} PiecesAreTags(s: string)
    ensures Advances(TagMatch) && TagPieces(Pieces(s, TagMatch))
    decreases |s|
  {
    TagMatchAdvances();
    if s != [] {
      var ps := Pieces(s, TagMatch);
      match TagMatch(s)
      case Some(h) =>
        assert ps[1..] == Pieces(s[h.len..], TagMatch);
        PiecesAreTags(s[h.len..]);
      case None =>
        assert ps[1..] == Pieces(s[1..], TagMatch);
        PiecesAreTags(s[1..]);
    }
  }

  /** A placeholder numbered below ten has a single digit. */
  lemma SmallPlaceholder(n: nat)
    requires n < 10
    ensures Placeholder(n) == "HTML_TAG_" + [DigitChar(n)]
    ensures |Placeholder(n)| == 10 && Placeholder(n)[9] == DigitChar(n)
    ensures forall i :: 0 < i < 10 ==> Placeholder(n)[i] != 'H'
  {
  }

  /** When no tag waits for its turn, every tag is shown as itself. */
  lemma {:induction false} AllRestored(ps: seq<Piece>, n: nat, j: nat)
    requires TagPieces(ps) && (Found(ps) == [] || n + |Found(ps)| <= j)
    ensures Restored(ps, n, j) == Source(ps)
    decreases |ps|
  {
    if ps != [] {
      TagPiecesRest(ps);
      match ps[0]
      case Keep(c) =>
        AllRestored(ps[1..], n, j);
      case Hit(t, r) =>
        assert Found(ps) == [r] + Found(ps[1..]);
        AllRestored(ps[1..], n + 1, j);
    }
  }

  /** A tag shows as itself, which starts with `<`, or as a placeholder,
      which starts with `H`. */
  lemma HitShowsFirst(ps: seq<Piece>, n: nat, j: nat, w: string)
    requires TagPieces(ps) && ps != [] && ps[0].Hit?
    requires w != [] && StartsWith(Restored(ps, n, j), w)
    ensures w[0] == '<' || w[0] == 'H'
  {
    var r := ps[0].repl;
    assert IsTag(r);
    if n < j {
      assert Restored(ps, n, j) == r + Restored(ps[1..], n + 1, j);
      assert w[0] == r[0];
    } else {
      assert Restored(ps, n, j) == Placeholder(n) + Restored(ps[1..], n + 1, j);
      assert w[0] == Placeholder(n)[0];
    }
  }

  /** A restored text that starts with a text holding neither `<` nor `H`
      starts with it because its source does. */
  lemma {:induction false} KeepPrefix(ps: seq<Piece>, n: nat, j: nat, w: string)
    requires TagPieces(ps) && 'H' !in w && '<' !in w
    requires StartsWith(Restored(ps, n, j), w)
    ensures StartsWith(Source(ps), w)
    decreases |ps|
  {
    if w != [] {
      TagPiecesRest(ps);
      if ps[0].Hit? {
        HitShowsFirst(ps, n, j, w);
        assert false;
      }
      var c := ps[0].c;
      var y := Restored(ps[1..], n, j);
      assert Restored(ps, n, j) == [c] + y;
      assert y[..|w| - 1] == w[1..];
      KeepPrefix(ps[1..], n, j, w[1..]);
      assert Source(ps) == [c] + Source(ps[1..]);
    }
  }

  /** A text that ends in `>` and does not contain `q` holds no occurrence of
      a pattern that starts with `q`, `q` having no `>`, not even one that
      runs on past its end. */
  lemma NoneAcrossEnd(r: string, y: string, q: string, pat: string, i: nat)
    requires i < |r| && r[|r| - 1] == '>' && !Contains(r, q)
    requires |q| <= |pat| && pat[..|q|] == q
    requires forall k :: 0 <= k < |q| ==> q[k] != '>'
    ensures !StartsWith(r[i..] + y, pat)
  {
    var s := r[i..] + y;
    if i + |q| <= |r| {
      if StartsWith(s, pat) {
        assert r[i..][..|q|] == s[..|q|];
        ContainsAt(r, q, i);
      }
    } else {
      var k := |r| - 1 - i;
      assert s[k] == '>';
      assert pat[k] == q[k] != '>';
    }
  }

  /** Putting back placeholder `j` passes over a tag shown as itself. */
  lemma SkipTag(r: string, y: string, j: nat, tag: string)
    requires IsTag(r) && !Contains(r, "HTML_TAG_")
    ensures ReplaceAll(r + y, Placeholder(j), tag) == r + ReplaceAll(y, Placeholder(j), tag)
  {
    var pat := Placeholder(j);
    var q := "HTML_TAG_";
    assert forall k :: 0 <= k < |q| ==> q[k] != '>';
    forall i | 0 <= i < |r|
      ensures !StartsWith(r[i..] + y, pat)
    {
      NoneAcrossEnd(r, y, q, pat, i);
    }
    ReplaceSkip(r, y, pat, tag);
  }

  /** Two different single-digit placeholders never overlap. */
  lemma PlaceholdersApart(n: nat, j: nat, y: string, i: nat)
    requires n < 10 && j < 10 && n != j && i < 10
    ensures !StartsWith(Placeholder(n)[i..] + y, Placeholder(j))
  {
    SmallPlaceholder(n);
    SmallPlaceholder(j);
    if i == 0 {
      assert (Placeholder(n) + y)[9] == DigitChar(n);
    } else {
      assert (Placeholder(n)[i..] + y)[0] == Placeholder(n)[i];
    }
  }

  /** Putting back placeholder `j` passes over another single-digit placeholder. */
  lemma SkipPlaceholder(n: nat, y: string, j: nat, tag: string)
    requires n < 10 && j < 10 && n != j
    ensures ReplaceAll(Placeholder(n) + y, Placeholder(j), tag) == Placeholder(n) + ReplaceAll(y, Placeholder(j), tag)
  {
    SmallPlaceholder(n);
    forall i | 0 <= i < |Placeholder(n)|
      ensures !StartsWith(Placeholder(n)[i..] + y, Placeholder(j))
    {
      PlaceholdersApart(n, j, y, i);
    }
    ReplaceSkip(Placeholder(n), y, Placeholder(j), tag);
  }

  /** Putting back a single-digit placeholder passes over a kept character:
      an `H` there would start a placeholder text in the source. */
  lemma SkipKeep(c: char, rest: seq<Piece>, n: nat, j: nat, tag: string)
    requires TagPieces(rest) && !Contains([c] + Source(rest), "HTML_TAG_") && j < 10
    ensures ReplaceAll([c] + Restored(rest, n, j), Placeholder(j), tag)
            == [c] + ReplaceAll(Restored(rest, n, j), Placeholder(j), tag)
  {
    var y := Restored(rest, n, j);
    var pat := Placeholder(j);
    SmallPlaceholder(j);
    if StartsWith([c] + y, pat) {
      assert ([c] + y)[1..] == y;
      assert y[..8] == pat[1..9] == "TML_TAG_";
      KeepPrefix(rest, n, j, "TML_TAG_");
      assert false;
    }
    ReplaceSkip([c], y, pat, tag);
  }

  /** Replacing placeholder `j` by the `j`-th tag shows one more tag as itself. */
  lemma {:induction false} RestoreStep(ps: seq<Piece>, n: nat, j: nat, tag: string)
    requires TagPieces(ps) && !Contains(Source(ps), "HTML_TAG_")
    requires n + |Found(ps)| <= 10 && j < 10
    requires n <= j < n + |Found(ps)| ==> tag == Found(ps)[j - n]
    ensures ReplaceAll(Restored(ps, n, j), Placeholder(j), tag) == Restored(ps, n, j + 1)
    decreases |ps|
  {
    var pat := Placeholder(j);
    if ps != [] {
      var rest := ps[1..];
      TagPiecesRest(ps);
      match ps[0]
      case Keep(c) =>
        assert !Contains([c] + Source(rest), "HTML_TAG_") by {
          assert Source(ps) == [c] + Source(rest);
        }
        assert ReplaceAll(Restored(rest, n, j), pat, tag) == Restored(rest, n, j + 1) by {
          ContainsParts([c], Source(rest), "HTML_TAG_");
          assert Found(ps) == Found(rest);
          RestoreStep(rest, n, j, tag);
        }
        SkipKeep(c, rest, n, j, tag);
      case Hit(t, r) =>
        var y := Restored(rest, n + 1, j);
        assert !Contains(r, "HTML_TAG_") && !Contains(Source(rest), "HTML_TAG_") by {
          assert Source(ps) == r + Source(rest);
          ContainsParts(r, Source(rest), "HTML_TAG_");
        }
        assert Found(ps) == [r] + Found(rest);
        assert ReplaceAll(y, pat, tag) == Restored(rest, n + 1, j + 1) by {
          RestoreStep(rest, n + 1, j, tag);
        }
        assert IsTag(r) by {
          assert ps[0] == ps[..][0];
        }
        RestoreHitStep(r, y, n, j, tag);
    }
  }

  /** One tag piece of `RestoreStep`: the tag itself, or its placeholder. */
  lemma RestoreHitStep(r: string, y: string, n: nat, j: nat, tag: string)
    requires IsTag(r) && !Contains(r, "HTML_TAG_") && n < 10 && j < 10
    requires n == j ==> tag == r
    ensures ReplaceAll((if n < j then r else Placeholder(n)) + y, Placeholder(j), tag)
            == (if n < j + 1 then r else Placeholder(n)) + ReplaceAll(y, Placeholder(j), tag)
  {
    if n == j {
      SmallPlaceholder(j);
      ReplaceFront(y, Placeholder(j), tag);
    } else if n < j {
      SkipTag(r, y, j, tag);
    } else {
      SkipPlaceholder(n, y, j, tag);
    }
  }

  /** Going through the bindings from the `j`-th on shows every tag. */
  lemma {:induction false} RestoreFrom(ps: seq<Piece>, j: nat)
    requires TagPieces(ps) && !Contains(Source(ps), "HTML_TAG_")
    requires |Found(ps)| <= 10 && j <= |Found(ps)|
    ensures ReplaceEach(Restored(ps, 0, j), BindingsFrom(Found(ps), 0)[j..]) == Restored(ps, 0, |Found(ps)|)
    decreases |Found(ps)| - j
  {
    var bs := BindingsFrom(Found(ps), 0);
    if j < |Found(ps)| {
      BindingAt(Found(ps), 0, j);
      RestoreStep(ps, 0, j, Found(ps)[j]);
      assert bs[j..][1..] == bs[j + 1..];
      RestoreFrom(ps, j + 1);
    }
  }

  /** With at most ten tags and no placeholder text of its own, the front
      matter comes back exactly from its placeholders and bindings. */
  lemma ProtectRoundTrip(fm: string)
    requires |Tags(fm)| <= 10 && !Contains(fm, "HTML_TAG_")
    ensures ReplaceEach(Protect(fm), BindingsFrom(Tags(fm), 0)) == fm
  {
    PiecesAreTags(fm);
    var ps := Pieces(fm, TagMatch);
    PiecesLossless(fm, TagMatch);
    RestoreFrom(ps, 0);
    AllRestored(ps, 0, |Found(ps)|);
    assert BindingsFrom(Found(ps), 0)[0..] == BindingsFrom(Found(ps), 0);
  }

  /** Placeholder 1 is a prefix of placeholder 10: with eleven tags, putting
      back the second tag corrupts the eleventh placeholder. */
  lemma PlaceholderCollision(tag: string)
    ensures Placeholder(10) == Placeholder(1) + "0"
    ensures ReplaceAll(Placeholder(10), Placeholder(1), tag) == tag + "0"
  {
    assert NatToString(10) == NatToString(1) + [DigitChar(0)];
    ReplaceFront("0", Placeholder(1), tag);
  }

  /** A text without `<` holds no tag: it is kept whole and reports nothing. */
  lemma NoTagIn(p: string, n: nat, j: nat)
    requires '<' !in p
    ensures Advances(TagMatch) && FindAll(p, TagMatch) == [] && Restored(Pieces(p, TagMatch), n, j) == p
  {
    TagMatchAdvances();
    forall i | 0 <= i < |p|
      ensures TagMatch(p[i..]).None?
    {
      assert p[i..][0] == p[i];
    }
    NoMatchUnchanged(p, TagMatch);
    PiecesAreTags(p);
    PiecesLossless(p, TagMatch);
    AllRestored(Pieces(p, TagMatch), n, j);
  }

  lemma PlaceholderHasNoTag(n: nat)
    ensures '<' !in Placeholder(n) && Placeholder(n)[0] == 'H'
  {
    var d := NatToString(n);
    assert Placeholder(n) == "HTML_TAG_" + d;
    assert forall i :: 0 <= i < |d| ==> IsDigit(d[i]);
  }

  /** A tag followed by plain text `p` protects to its placeholder then `p`. */
  lemma ProtectTagThen(t: string, p: string)
    requires IsTag(t) && '<' !in p
    ensures Protect(t + p) == Placeholder(0) + p && Tags(t + p) == [t]
  {
    var fm := t + p;
    TagMatchAdvances();
    TagMatchComplete(t, p);
    assert fm[|t|..] == p && fm[..|t|] == t;
    var ps := Pieces(fm, TagMatch);
    assert ps == [Hit(t, t)] + Pieces(p, TagMatch);
    NoTagIn(p, 1, 0);
  }

  /** Front matter that already holds the text of a placeholder gets a tag
      in its place. */
  lemma LiteralPlaceholderLost(t: string)
    requires IsTag(t)
    ensures var fm := t + Placeholder(0);
            ReplaceEach(Protect(fm), BindingsFrom(Tags(fm), 0)) == t + t != fm
  {
    var p := Placeholder(0);
    PlaceholderHasNoTag(0);
    ProtectTagThen(t, p);
    assert BindingsFrom([t], 0) == [Binding(p, t)];
    ReplaceFront(p, p, t);
    ReplaceFront([], p, t);
    assert p + [] == p;
    assert (t + t)[|t|] == '<' != (t + p)[|t|];
  }

  // ---------------------------------------------------------------------
  // restore_html_tags

  /** A parsed front matter value: a string, or any other value as YAML shows it. */
  datatype Value = Str(s: string) | Other(shown: string)

  /** What `yaml.safe_load` returned: a mapping with its entries in order, or
      any other document (a list, a scalar). */
  datatype Parsed = Mapping(entries: seq<(string, Value)>) | NotMapping(shown: string)

  /** A string value gets its tags back and is then HTML-escaped; any other value stays. */
  function RestoreValue(v: Value, bs: seq<Binding>): Value {
    match v
    case Str(s) => Str(HtmlEscape(ReplaceEach(s, bs)))
    case Other(_) => v
  }

  /** Front matter whose placeholders came from `PreprocessFrontmatter` ends up
      as its original text, escaped. */
  lemma RestoreProtected(fm: string)
    requires |Tags(fm)| <= 10 && !Contains(fm, "HTML_TAG_")
    ensures RestoreValue(Str(Protect(fm)), BindingsFrom(Tags(fm), 0)) == Str(HtmlEscape(fm))
  {
    ProtectRoundTrip(fm);
  }

  /** The entries with every value restored and the keys as they are. */
  function RestoreEntries(es: seq<(string, Value)>, bs: seq<Binding>): (rs: seq<(string, Value)>)
    ensures |rs| == |es|
    ensures forall k :: 0 <= k < |es| ==> rs[k] == (es[k].0, RestoreValue(es[k].1, bs))
    decreases |es|
  {
    if es == [] then [] else [(es[0].0, RestoreValue(es[0].1, bs))] + RestoreEntries(es[1..], bs)
  }

  /** The parsed front matter with its tags put back: in a mapping each string
      value is restored and escaped, while keys, other values (nested mappings
      included) and documents that are not mappings stay as they are. */
  function RestoreAll(data: Parsed, bs: seq<Binding>): (r: Parsed)
    ensures data.NotMapping? ==> r == data
    ensures data.Mapping? ==> r.Mapping? && |r.entries| == |data.entries|
    ensures data.Mapping? ==> forall k :: 0 <= k < |data.entries| ==>
              r.entries[k].0 == data.entries[k].0 &&
              (data.entries[k].1.Other? ==> r.entries[k].1 == data.entries[k].1) &&
              (data.entries[k].1.Str? ==> r.entries[k].1 == Str(HtmlEscape(ReplaceEach(data.entries[k].1.s, bs))))
  {
    match data
    case NotMapping(_) => data
    case Mapping(es) => Mapping(RestoreEntries(es, bs))
  }

  /** `restore_html_tags`: in a mapping, every string value gets the tags
      back and is escaped, in place; anything else is returned as it is. */
  method RestoreHtmlTags(data: Parsed, htmlTags: seq<Binding>) returns (r: Parsed)
    ensures r == RestoreAll(data, htmlTags)
  {
    if data.NotMapping? {
      return data;
    }
    var entries := data.entries;
    for i := 0 to |entries|
      invariant |entries| == |data.entries|
      invariant forall k :: 0 <= k < i ==> entries[k] == (data.entries[k].0, RestoreValue(data.entries[k].1, htmlTags))
      invariant forall k :: i <= k < |entries| ==> entries[k] == data.entries[k]
    {
      var (key, value) := entries[i];
      if value.Str? {
        var v := value.s;
        for j := 0 to |htmlTags|
          invariant ReplaceEach(v, htmlTags[j..]) == ReplaceEach(value.s, htmlTags)
        {
          assert htmlTags[j..][1..] == htmlTags[j + 1..];
          v := ReplaceAll(v, htmlTags[j].placeholder, htmlTags[j].tag);
        }
        v := HtmlEscape(v);
        entries := entries[i := (key, Str(v))];
      }
    }
    r := Mapping(entries);
    assert entries == RestoreEntries(data.entries, htmlTags);
  }
}

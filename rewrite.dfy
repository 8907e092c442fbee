/** The two rewrites applied to a document's text before its frontmatter is
    split off: image attributes made absolute (`process_image_paths`) and
    code fences carrying a file name given a visible header
    (`preprocess_code_blocks`). Each is `re.sub` with one pattern; the
    patterns are written out as matchers. */
module Rewrite {
  import opened Wrappers
  import opened Text
  import opened Paths
  import opened Scanner

  // ---------------------------------------------------------------------
  // process_image_paths: src(?:Light|Dark)="(.*?)"

  /** Length of the `srcLight="` or `srcDark="` opening at the front of `t`, or 0. */
  function AttrLen(t: string): (n: nat)
    ensures n == 0 || n == 9 || n == 10
  {
    if StartsWith(t, "srcLight=\"") then 10
    else if StartsWith(t, "srcDark=\"") then 9
    else 0
  }

  /** Length of the run at the front of `t` holding neither `"` nor a newline
      (what the lazy `.*?` can cover before the closing `"`). */
  function LineRun(t: string): (k: nat)
    ensures k <= |t|
    ensures forall i :: 0 <= i < k ==> t[i] != '"' && t[i] != '\n'
    ensures k < |t| ==> t[k] == '"' || t[k] == '\n'
    decreases |t|
  {
    if t == [] || t[0] == '"' || t[0] == '\n' then 0 else 1 + LineRun(t[1..])
  }

  /** The image-attribute pattern at the front of `t`: the opening, then the
      shortest newline-free path up to the next `"`; replaced by
      `src="<basePath><path><pathArgs>"`. */
  function ImageMatch(t: string, basePath: string, pathArgs: string): (r: Option<Match>)
    ensures r.Some? ==>
              var n := AttrLen(t);
              n > 0 && n < r.value.len <= |t| && t[r.value.len - 1] == '"' &&
              (forall i :: n <= i < r.value.len - 1 ==> t[i] != '"' && t[i] != '\n') &&
              r.value.repl == "src=\"" + basePath + t[n..r.value.len - 1] + pathArgs + "\""
    ensures r.None? ==>
              AttrLen(t) == 0 ||
              forall j :: AttrLen(t) <= j < |t| && t[j] == '"' ==> '\n' in t[AttrLen(t)..j]
  {
    var n := AttrLen(t);
    if n == 0 then None
    else
      var k := LineRun(t[n..]);
      if n + k < |t| && t[n + k] == '"' then
        Some(Match(n + k + 1, "src=\"" + basePath + t[n..n + k] + pathArgs + "\""))
      else
        assert forall j :: n <= j < |t| && t[j] == '"' ==> t[n..j][n + k - n] == '\n';
        None
  }

  /** A closing quote before any newline completes the match. */
  lemma ImageMatchFound(t: string, basePath: string, pathArgs: string)
    requires AttrLen(t) > 0
    requires AttrLen(t) + LineRun(t[AttrLen(t)..]) < |t|
    requires t[AttrLen(t) + LineRun(t[AttrLen(t)..])] == '"'
    ensures var n := AttrLen(t);
            var k := LineRun(t[n..]);
            ImageMatch(t, basePath, pathArgs) == Some(Match(n + k + 1, "src=\"" + basePath + t[n..n + k] + pathArgs + "\""))
  {
  }

  lemma ImageMatchAdvances(basePath: string, pathArgs: string)
    ensures Advances(t => ImageMatch(t, basePath, pathArgs))
  {
  }

  /** `process_image_paths`, with the configured base URL and query suffix as parameters. */
  function ProcessImagePaths(md: string, basePath: string, pathArgs: string): string {
    ImageMatchAdvances(basePath, pathArgs);
    Sub(md, t => ImageMatch(t, basePath, pathArgs))
  }

  /** Text with no `srcLight="` or `srcDark="` in it, plain `src="..."`
      included, comes out unchanged. */
  lemma ImagePathsUntouched(md: string, basePath: string, pathArgs: string)
    requires !Contains(md, "srcLight=\"") && !Contains(md, "srcDark=\"")
    ensures ProcessImagePaths(md, basePath, pathArgs) == md
  {
    var m := t => ImageMatch(t, basePath, pathArgs);
    ImageMatchAdvances(basePath, pathArgs);
    forall i | 0 <= i < |md|
      ensures m(md[i..]).None?
    {
      NotContainedNotAt(md, "srcLight=\"", i);
      NotContainedNotAt(md, "srcDark=\"", i);
      assert AttrLen(md[i..]) == 0;
    }
    NoMatchUnchanged(md, m);
  }

  /** A text that does not hold `p` does not start with it anywhere. */
  lemma NotContainedNotAt(md: string, p: string, i: nat)
    requires !Contains(md, p) && i <= |md|
    ensures !StartsWith(md[i..], p)
  {
    if StartsWith(md[i..], p) {
      ContainsAt(md, p, i);
    }
  }

  /** The pattern matches the whole of an attribute holding a path on one line. */
  lemma ImageMatchWhole(attr: string, p: string, basePath: string, pathArgs: string)
    requires attr == "srcLight=\"" || attr == "srcDark=\""
    requires '"' !in p && '\n' !in p
    ensures var t := attr + p + "\"";
            ImageMatch(t, basePath, pathArgs) == Some(Match(|t|, "src=\"" + basePath + p + pathArgs + "\""))
  {
    var t := attr + p + "\"";
    var n := |attr|;
    assert t[..n] == attr;
    assert AttrLen(t) == n by {
      if attr == "srcDark=\"" {
        assert t[..10][3] == 'D';
      }
    }
    assert t[n..] == p + "\"";
    var k := LineRun(t[n..]);
    assert forall i :: 0 <= i < |p| ==> t[n..][i] == p[i] && p[i] != '"' && p[i] != '\n';
    assert t[n..][|p|] == '"';
    assert k == |p|;
    assert t[n..n + k] == p;
    ImageMatchFound(t, basePath, pathArgs);
  }

  /** A `srcLight` or `srcDark` attribute holding a path on one line becomes
      a `src` attribute holding the path with the base in front and the
      arguments behind. */
  lemma ImageAttributeRewritten(attr: string, p: string, basePath: string, pathArgs: string)
    requires attr == "srcLight=\"" || attr == "srcDark=\""
    requires '"' !in p && '\n' !in p
    ensures ProcessImagePaths(attr + p + "\"", basePath, pathArgs)
            == "src=\"" + basePath + p + pathArgs + "\""
  {
    var t := attr + p + "\"";
    var r := "src=\"" + basePath + p + pathArgs + "\"";
    ImageMatchWhole(attr, p, basePath, pathArgs);
    var m := u => ImageMatch(u, basePath, pathArgs);
    ImageMatchAdvances(basePath, pathArgs);
    assert m(t) == Some(Match(|t|, r));
    WholeMatch(t, m, r);
  }

  // ---------------------------------------------------------------------
  // preprocess_code_blocks: ```(\w+)?\s+filename="([^"]+)"\s*(switcher)?\n(.*?)```
  // matched with DOTALL, so `.` and `[^"]` also cover newlines.

  /** `\w` (ASCII letters, digits and the underscore). */
  predicate IsWordChar(c: char) {
    IsCased(c) || IsDigit(c) || c == '_'
  }

  function WordRun(t: string): (k: nat)
    ensures k <= |t|
    ensures forall i :: 0 <= i < k ==> IsWordChar(t[i])
    ensures k < |t| ==> !IsWordChar(t[k])
    decreases |t|
  {
    if t != [] && IsWordChar(t[0]) then 1 + WordRun(t[1..]) else 0
  }

  /** A fence "```" starts at position `i` of `t`. */
  predicate OpensFence(t: string, i: nat) {
    i + 3 <= |t| && t[i..i + 3] == "```"
  }

  /** First position at or after `from` where a fence "```" starts. */
  function FindFence(t: string, from: nat): (r: Option<nat>)
    requires from <= |t|
    ensures r.Some? ==> from <= r.value && OpensFence(t, r.value)
    decreases |t| - from
  {
    if from + 3 > |t| then None
    else if OpensFence(t, from) then Some(from)
    else FindFence(t, from + 1)
  }

  /** The fence found is the first one at or after `from`, and none is
      found only when there is none. */
  lemma {:induction false} FindFenceFirstOne(t: string, from: nat)
    requires from <= |t|
    ensures FindFence(t, from).Some? ==> forall i :: from <= i < FindFence(t, from).value ==> !OpensFence(t, i)
    ensures FindFence(t, from).None? ==> forall i :: from <= i ==> !OpensFence(t, i)
    decreases |t| - from
  {
    if from + 3 <= |t| && !OpensFence(t, from) {
      FindFenceFirstOne(t, from + 1);
    }
  }

  /** A fence with no other fence between `from` and it is the one found. */
  lemma {:induction false} FindFenceFirst(t: string, from: nat, z: nat)
    requires from <= z && OpensFence(t, z)
    requires forall j :: from <= j < z ==> !OpensFence(t, j)
    ensures FindFence(t, from) == Some(z)
    decreases z - from
  {
    if from < z {
      FindFenceFirst(t, from + 1, z);
    }
  }

  predicate AllSpace(s: string) {
    forall i :: 0 <= i < |s| ==> IsSpace(s[i])
  }

  predicate AllWord(s: string) {
    forall i :: 0 <= i < |s| ==> IsWordChar(s[i])
  }

  /** A fenced block the pattern matched, cut into the pattern's parts:
      the language tag, the blanks after it, the file name, the blanks after
      the file name, whether `switcher` followed them, and the code. */
  datatype Fence = Fence(lang: string, gap: string, filename: string, pad: string,
                         switcher: bool, code: string)

  function SwitcherText(switcher: bool): string {
    if switcher then "switcher\n" else ""
  }

  // The texts below are written innermost-last (`a + (b + rest)`), the way
  // the pattern reads them, so each stage of the matcher peels one part off.

  /** The blanks after the file name through the closing fence, then `rest`. */
  function CloseThen(pad: string, switcher: bool, code: string, rest: string): string {
    pad + (SwitcherText(switcher) + (code + ("```" + rest)))
  }

  /** `filename="` through the closing fence, then `rest`. */
  function NamedThen(filename: string, pad: string, switcher: bool, code: string, rest: string): string {
    "filename=\"" + (filename + ("\"" + CloseThen(pad, switcher, code, rest)))
  }

  /** The text of the fence `f`, then `rest`. */
  function FenceThen(f: Fence, rest: string): string {
    "```" + (f.lang + (f.gap + NamedThen(f.filename, f.pad, f.switcher, f.code, rest)))
  }

  /** No fence starts inside the code, not even one running into the closing fence. */
  predicate CodeClean(code: string) {
    forall i :: 0 <= i < |code| ==> !OpensFence(code + "```", i)
  }

  /** The blanks after the file name, ending in the newline when no
      `switcher` follows them. */
  predicate PadShape(pad: string, switcher: bool) {
    AllSpace(pad) && (!switcher ==> pad != [] && pad[|pad| - 1] == '\n')
  }

  /** The parts obey the pattern: a word language tag, at least one blank, a
      non-empty file name without `"`, the blanks after it, and code that
      runs up to the first closing fence. */
  predicate WellFormed(f: Fence) {
    AllWord(f.lang) && f.gap != [] && AllSpace(f.gap) &&
    f.filename != [] && '"' !in f.filename &&
    CloseShape(f.pad, f.switcher, f.code)
  }

  /** Code after blanks that end in a newline, as the pattern leaves it: the
      blanks it starts with hold no newline and are not followed by
      `switcher` and a newline, since the blanks before it would have taken them. */
  predicate CodeStart(code: string) {
    var b := LeadingSpaces(code);
    '\n' !in code[..b] && !StartsWith(code[b..], "switcher\n")
  }

  /** The blanks, the `switcher` line and the code, cut where the pattern
      cuts them. */
  predicate CloseShape(pad: string, switcher: bool, code: string) {
    PadShape(pad, switcher) && CodeClean(code) && (!switcher ==> CodeStart(code))
  }

  /** What follows a file name's closing quote, up to the closing fence, and the text after it. */
  datatype Close = Close(pad: string, switcher: bool, code: string, rest: string)

  /** The file name and what follows it. */
  datatype Named = Named(filename: string, close: Close)

  /** Where the blanks after the file name end and whether `switcher` and a
      newline follow all of them; otherwise the blanks are given back up to
      their last newline. The blanks are taken greedily and given back one by
      one, which is what picks this position. */
  function PadEnd(s: string): (r: Option<(nat, bool)>)
    ensures r.Some? ==> r.value.0 <= |s| && PadShape(s[..r.value.0], r.value.1)
    ensures (r.Some? && r.value.1) <==> StartsWith(s[LeadingSpaces(s)..], "switcher\n")
    ensures r.Some? && r.value.1 ==> r.value.0 == LeadingSpaces(s)
    ensures r.Some? && !r.value.1 ==> r.value.0 <= LeadingSpaces(s) && '\n' !in s[r.value.0..LeadingSpaces(s)]
    ensures r.None? <==> !StartsWith(s[LeadingSpaces(s)..], "switcher\n") && '\n' !in s[..LeadingSpaces(s)]
  {
    var e := LeadingSpaces(s);
    if StartsWith(s[e..], "switcher\n") then Some((e, true))
    else match LastIndexOf(s[..e], '\n')
      case Some(n) =>
        assert s[..e][n + 1..] == s[n + 1..e];
        Some((n + 1, false))
      case None => None
  }

  /** The code before the first fence holds no fence. */
  lemma CleanBeforeFence(u: string, z: nat)
    requires FindFence(u, 0) == Some(z)
    ensures CodeClean(u[..z])
  {
    FindFenceFirstOne(u, 0);
    var v := u[..z + 3];
    assert v == u[..z] + "```" by {
      assert u[z..z + 3] == "```";
    }
    forall i | 0 <= i < z
      ensures !OpensFence(u[..z] + "```", i)
    {
      assert !OpensFence(u, i);
      assert v[i] == u[i] && v[i + 1] == u[i + 1] && v[i + 2] == u[i + 2];
    }
  }

  /** Cutting a text at `p`, after a piece `w` found there, and around the
      first fence after that piece. */
  lemma CodeUpToFence(s: string, p: nat, w: string, z: nat)
    requires p + |w| <= |s| && s[p..p + |w|] == w
    requires FindFence(s[p + |w|..], 0) == Some(z)
    ensures var u := s[p + |w|..];
            s == s[..p] + (w + (u[..z] + ("```" + u[z + 3..]))) && CodeClean(u[..z])
  {
    var u := s[p + |w|..];
    CleanBeforeFence(u, z);
    CutAround(u, z, 3);
    CutAround(s, p, |w|);
  }

  /** The `switcher` line the blanks end at, if any, is there in the text. */
  lemma SwitcherAt(s: string, p: nat, sw: bool)
    requires p <= |s| && (sw ==> StartsWith(s[p..], "switcher\n"))
    ensures p + |SwitcherText(sw)| <= |s| && s[p..p + |SwitcherText(sw)|] == SwitcherText(sw)
  {
    if sw {
      assert s[p..][..9] == s[p..p + 9];
    }
  }

  /** When the blanks end at a newline, the code after them starts the way
      `CodeStart` says: the blanks given back hold no newline, and no
      `switcher` line follows them. */
  lemma CodeStartAt(s: string, p: nat, sw: bool, z: nat)
    requires PadEnd(s) == Some((p, sw))
    requires p + |SwitcherText(sw)| <= |s| && FindFence(s[p + |SwitcherText(sw)|..], 0) == Some(z)
    ensures !sw ==> CodeStart(s[p..][..z])
  {
    if !sw {
      var e := LeadingSpaces(s);
      var u := s[p..];
      assert e - p <= z by {
        assert forall i :: 0 <= i < e - p ==> u[i] == s[p + i];
        BlanksBeforeFence(u, e - p, z);
      }
      CodeStartCut(s, p, e, z);
    }
  }

  /** The code from `p` to `p + z`, cut at `e`. */
  lemma CodeCuts(s: string, p: nat, e: nat, z: nat)
    requires p <= e && e - p <= z && p + z <= |s|
    ensures var code := s[p..][..z];
            (forall i :: 0 <= i < e - p ==> code[i] == s[p + i]) &&
            (e - p < z ==> code[e - p] == s[e]) &&
            code[..e - p] == s[p..e] && code[e - p..] == s[e..][..z - (e - p)]
  {
    var code := s[p..][..z];
    assert code == s[p..p + z] by {
      SubSlice(s, p, |s|, 0, z);
    }
    SubSlice(s, p, p + z, 0, e - p);
    SubSlice(s, p, p + z, e - p, z);
    SubSlice(s, e, |s|, 0, z - (e - p));
  }

  /** A fence does not start among blanks. */
  lemma BlanksBeforeFence(u: string, d: nat, z: nat)
    requires d <= |u| && forall i :: 0 <= i < d ==> IsSpace(u[i])
    requires OpensFence(u, z)
    ensures d <= z
  {
    assert !IsSpace(u[z]) by {
      assert u[z] == u[z..z + 3][0];
    }
  }

  /** The code cut from `p` to a fence after the blanks starts the way
      `CodeStart` says when the blanks from `p` on hold no newline and no
      `switcher` line follows them. */
  lemma CodeStartCut(s: string, p: nat, e: nat, z: nat)
    requires e == LeadingSpaces(s) && p <= e && e - p <= z && p + z <= |s|
    requires '\n' !in s[p..e] && !StartsWith(s[e..], "switcher\n")
    ensures CodeStart(s[p..][..z])
  {
    var d := e - p;
    var code := s[p..][..z];
    CodeCuts(s, p, e, z);
    assert LeadingSpaces(code) == d by {
      LeadingSpacesIs(code, d);
    }
    assert !StartsWith(code[d..], "switcher\n") by {
      NotStartsWithPrefix(code[d..], s[e..], "switcher\n");
    }
  }

  /** The pattern's tail after a file name's closing quote: blanks, an
      optional `switcher`, the code and the closing fence. */
  function CloseAt(s: string): (r: Option<Close>)
    ensures r.Some? ==>
              var c := r.value;
              s == CloseThen(c.pad, c.switcher, c.code, c.rest) &&
              CloseShape(c.pad, c.switcher, c.code)
  {
    match PadEnd(s)
    case None => None
    case Some((p, sw)) =>
      SwitcherAt(s, p, sw);
      var u := s[p + |SwitcherText(sw)|..];
      match FindFence(u, 0)
      case None => None
      case Some(z) =>
        CodeUpToFence(s, p, SwitcherText(sw), z);
        CodeStartAt(s, p, sw, z);
        Some(Close(s[..p], sw, u[..z], u[z + 3..]))
  }

  /** The last newline of `x + y` is the one `x` ends with when `y` has none. */
  lemma {:induction false} LastNewlineAt(x: string, y: string)
    requires x != [] && x[|x| - 1] == '\n' && '\n' !in y
    ensures LastIndexOf(x + y, '\n') == Some(|x| - 1)
    decreases |y|
  {
    if y == [] {
      assert x + y == x;
    } else {
      var init := y[..|y| - 1];
      assert (x + y)[..|x + y| - 1] == x + init;
      assert '\n' !in init by {
        assert forall i :: 0 <= i < |init| ==> init[i] == y[i];
      }
      LastNewlineAt(x, init);
    }
  }

  /** A text that does not start with `switcher` and a newline still does
      not once a fence follows it. */
  lemma NoSwitcherBeforeFence(x: string, rest: string)
    requires !StartsWith(x, "switcher\n")
    ensures !StartsWith(x + ("```" + rest), "switcher\n")
  {
    var t := x + ("```" + rest);
    if |x| < 9 && 9 <= |t| {
      assert t[|x|] == '`' && "switcher\n"[|x|] != '`';
    } else if 9 <= |x| {
      assert t[..9] == x[..9];
    }
  }

  /** The blanks before a `switcher` line are all taken. */
  lemma PadEndSwitcher(pad: string, t: string)
    requires AllSpace(pad)
    ensures PadEnd(pad + ("switcher\n" + t)) == Some((|pad|, true))
  {
    var s := pad + ("switcher\n" + t);
    SpacesAt(pad, "switcher\n" + t);
    StartsWithThen("switcher\n", t);
  }

  /** Blanks ending in a newline, before code of the shape `CodeStart`
      says, are given back up to that newline. */
  lemma PadEndPlain(pad: string, code: string, rest: string)
    requires PadShape(pad, false) && CodeStart(code)
    ensures PadEnd(pad + (code + ("```" + rest))) == Some((|pad|, false))
  {
    var t := code + ("```" + rest);
    var s := pad + t;
    var b := LeadingSpaces(code);
    LeadingOfCode(code, rest);
    LeadingAfterPad(pad, t);
    var e := |pad| + b;
    assert e == LeadingSpaces(s);
    assert !StartsWith(s[e..], "switcher\n") by {
      assert s[e..] == code[b..] + ("```" + rest);
      NoSwitcherBeforeFence(code[b..], rest);
    }
    assert LastIndexOf(s[..e], '\n') == Some(|pad| - 1) by {
      assert s[..e] == pad + code[..b];
      LastNewlineAt(pad, code[..b]);
    }
    PadEndGivesBack(s, e, |pad| - 1);
  }

  /** The fence ends the leading blanks of code that runs up to it. */
  lemma LeadingOfCode(code: string, rest: string)
    ensures LeadingSpaces(code + ("```" + rest)) == LeadingSpaces(code)
  {
    var t := code + ("```" + rest);
    var b := LeadingSpaces(code);
    assert forall i :: 0 <= i < b ==> t[i] == code[i];
    assert b < |code| ==> t[b] == code[b];
    assert b == |code| ==> t[b] == '`';
    LeadingSpacesIs(t, b);
  }

  /** Blanks in front add to the leading blanks. */
  lemma LeadingAfterPad(pad: string, t: string)
    requires AllSpace(pad)
    ensures LeadingSpaces(pad + t) == |pad| + LeadingSpaces(t)
  {
    var s := pad + t;
    var e := |pad| + LeadingSpaces(t);
    assert forall i :: 0 <= i < |pad| ==> s[i] == pad[i];
    assert forall i :: |pad| <= i < |s| ==> s[i] == t[i - |pad|];
    LeadingSpacesIs(s, e);
  }

  /** Without a `switcher` line after the blanks, they are given back up to
      their last newline. */
  lemma PadEndGivesBack(s: string, e: nat, n: nat)
    requires e == LeadingSpaces(s)
    requires !StartsWith(s[e..], "switcher\n") && LastIndexOf(s[..e], '\n') == Some(n)
    ensures PadEnd(s) == Some((n + 1, false))
  {
  }

  /** Code free of fences runs up to the fence after it. */
  lemma FenceAfterCode(code: string, rest: string)
    requires CodeClean(code)
    ensures FindFence(code + ("```" + rest), 0) == Some(|code|)
  {
    var u := code + ("```" + rest);
    var v := code + "```";
    assert u[..|v|] == v;
    forall i | 0 <= i < |code|
      ensures !OpensFence(u, i)
    {
      FenceInPrefix(v, u, i);
    }
    assert OpensFence(u, |code|) by {
      assert u[|code|..|code| + 3] == "```";
    }
    FindFenceFirst(u, 0, |code|);
  }

  /** Whether a fence starts at `i` is decided by the text up to its end. */
  lemma FenceInPrefix(v: string, u: string, i: nat)
    requires |v| <= |u| && v == u[..|v|] && i + 3 <= |v|
    ensures OpensFence(u, i) == OpensFence(v, i)
  {
    assert u[i..i + 3] == v[i..i + 3];
  }

  /** What `CloseAt` returns once the end of the blanks and the fence after
      the code are known. */
  lemma CloseAtFrom(s: string, p: nat, sw: bool, z: nat)
    requires PadEnd(s) == Some((p, sw))
    requires p + |SwitcherText(sw)| <= |s|
    requires FindFence(s[p + |SwitcherText(sw)|..], 0) == Some(z)
    ensures var u := s[p + |SwitcherText(sw)|..];
            CloseAt(s) == Some(Close(s[..p], sw, u[..z], u[z + 3..]))
  {
  }

  /** The blanks end where the parts say. */
  lemma PadEndOfClose(pad: string, switcher: bool, code: string, rest: string)
    requires CloseShape(pad, switcher, code)
    ensures PadEnd(CloseThen(pad, switcher, code, rest)) == Some((|pad|, switcher))
  {
    var t := code + ("```" + rest);
    if switcher {
      assert CloseThen(pad, switcher, code, rest) == pad + ("switcher\n" + t);
      PadEndSwitcher(pad, t);
    } else {
      assert CloseThen(pad, switcher, code, rest) == pad + t;
      PadEndPlain(pad, code, rest);
    }
  }

  /** The pieces of the pattern's tail, cut at the end of the blanks. */
  lemma CloseCuts(pad: string, switcher: bool, code: string, rest: string)
    ensures var s := CloseThen(pad, switcher, code, rest);
            var t := s[|pad| + |SwitcherText(switcher)|..];
            |pad| + |SwitcherText(switcher)| <= |s| && s[..|pad|] == pad &&
            t == code + ("```" + rest) && t[..|code|] == code && t[|code| + 3..] == rest
  {
    var t := code + ("```" + rest);
    assert t[..|code|] == code && t[|code| + 3..] == rest;
  }

  /** The pattern's tail reads back exactly the parts it is made of. */
  lemma CloseComplete(pad: string, switcher: bool, code: string, rest: string)
    requires CloseShape(pad, switcher, code)
    ensures CloseAt(CloseThen(pad, switcher, code, rest)) == Some(Close(pad, switcher, code, rest))
  {
    var s := CloseThen(pad, switcher, code, rest);
    PadEndOfClose(pad, switcher, code, rest);
    CloseCuts(pad, switcher, code, rest);
    FenceAfterCode(code, rest);
    CloseAtFrom(s, |pad|, switcher, |code|);
  }

  /** The pattern's tail from `filename="` on. */
  function NamedAt(s: string): (r: Option<Named>)
    ensures r.Some? ==>
              var n := r.value;
              var c := n.close;
              s == NamedThen(n.filename, c.pad, c.switcher, c.code, c.rest) &&
              n.filename != [] && '"' !in n.filename &&
              CloseShape(c.pad, c.switcher, c.code)
  {
    if !StartsWith(s, "filename=\"") then None
    else
      StartsWithRest(s, "filename=\"");
      NameThen(s[10..])
  }

  /** The file name in quotes, then the pattern's tail after it. */
  function NameThen(u: string): (r: Option<Named>)
    ensures r.Some? ==>
              var n := r.value;
              var c := n.close;
              u == n.filename + ("\"" + CloseThen(c.pad, c.switcher, c.code, c.rest)) &&
              n.filename != [] && '"' !in n.filename &&
              CloseShape(c.pad, c.switcher, c.code)
  {
    var k := RunUntil(u, '"');
    if k == 0 || k == |u| then None
    else match CloseAt(u[k + 1..])
      case None => None
      case Some(c) =>
        NameCut(u, k);
        Some(Named(u[..k], c))
  }

  /** Cutting a text around the quote that ends the file name. */
  lemma NameCut(u: string, k: nat)
    requires k == RunUntil(u, '"') && 0 < k < |u|
    ensures u == u[..k] + ("\"" + u[k + 1..]) && '"' !in u[..k]
  {
    CutAround(u, k, 1);
    assert u[k..k + 1] == "\"";
  }

  /** Cutting a text after the opening fence, a language tag of length `k`
      and blanks of length `g`. */
  lemma HeadParts(t: string, k: nat, g: nat, tail: string)
    requires StartsWith(t, "```") && 3 + k + g <= |t|
    requires k == WordRun(t[3..]) && g == LeadingSpaces(t[3..][k..])
    requires t[3..][k..][g..] == tail
    ensures t == "```" + (t[3..][..k] + (t[3..][k..][..g] + tail))
    ensures AllWord(t[3..][..k]) && AllSpace(t[3..][k..][..g])
  {
    var s1 := t[3..];
    var s2 := s1[k..];
    assert AllWord(s1[..k]) by {
      assert forall i :: 0 <= i < k ==> s1[..k][i] == s1[i];
    }
    assert AllSpace(s2[..g]) by {
      assert forall i :: 0 <= i < g ==> s2[..g][i] == s2[i];
    }
    HeadCut(t, k, g, tail);
  }

  lemma HeadCut(t: string, k: nat, g: nat, tail: string)
    requires StartsWith(t, "```") && 3 + k + g <= |t|
    requires t[3..][k..][g..] == tail
    ensures t == "```" + (t[3..][..k] + (t[3..][k..][..g] + tail))
  {
    var s1 := t[3..];
    var s2 := s1[k..];
    assert s2 == s2[..g] + tail;
    assert s1 == s1[..k] + s2;
    StartsWithRest(t, "```");
  }

  /** The code-fence pattern at the front of `t`: the fence, and the text after it. */
  function FenceAt(t: string): (r: Option<(Fence, string)>)
    ensures r.Some? ==> WellFormed(r.value.0) && t == FenceThen(r.value.0, r.value.1)
  {
    if !StartsWith(t, "```") then None
    else
      var s1 := t[3..];
      var k := WordRun(s1);
      var s2 := s1[k..];
      var g := LeadingSpaces(s2);
      if g == 0 then None
      else match NamedAt(s2[g..])
        case None => None
        case Some(n) =>
          var c := n.close;
          HeadParts(t, k, g, NamedThen(n.filename, c.pad, c.switcher, c.code, c.rest));
          Some((Fence(s1[..k], s2[..g], n.filename, c.pad, c.switcher, c.code), c.rest))
  }

  /** The header line naming the file, and the language when there is one. */
  function CodeHeader(filename: string, lang: string): string {
    if lang != [] then "<div class=\"code-header\"><i>" + filename + " (" + lang + ")</i></div>"
    else "<div class=\"code-header\"><i>" + filename + "</i></div>"
  }

  /** A matched fence becomes the header, then a plain fence re-tagged with
      the language around the original code, unchanged. */
  function FenceReplacement(f: Fence): string {
    CodeHeader(f.filename, f.lang) + "\n```" + f.lang + "\n" + f.code + "\n```"
  }

  function FenceMatch(t: string): (r: Option<Match>)
    ensures r.Some? ==> 0 < r.value.len <= |t|
  {
    var r := FenceAt(t);
    if r.None? then None else Some(Match(|t| - |r.value.1|, FenceReplacement(r.value.0)))
  }

  lemma FenceMatchOf(t: string, f: Fence, rest: string)
    requires FenceAt(t) == Some((f, rest))
    ensures FenceMatch(t).Some? && FenceMatch(t).value.len == |t| - |rest|
    ensures FenceMatch(t).value.repl == FenceReplacement(f)
  {
  }

  /** A text that is one fence from end to end is replaced as a whole. */
  lemma WholeFence(t: string, f: Fence)
    requires FenceAt(t) == Some((f, ""))
    ensures PreprocessCodeBlocks(t) == FenceReplacement(f)
  {
    FenceMatchOf(t, f, "");
    assert FenceMatch(t) == Some(Match(|t|, FenceReplacement(f)));
    FenceMatchAdvances();
    WholeMatch(t, FenceMatch, FenceReplacement(f));
  }

  lemma FenceMatchAdvances()
    ensures Advances(FenceMatch)
  {
  }

  /** `preprocess_code_blocks`. */
  function PreprocessCodeBlocks(md: string): string {
    FenceMatchAdvances();
    Sub(md, FenceMatch)
  }

  /** A text starting with a fence holds `filename="`. */
  lemma FenceHoldsFilename(t: string, f: Fence, rest: string)
    requires t == FenceThen(f, rest)
    ensures Contains(t, "filename=\"")
  {
    var named := NamedThen(f.filename, f.pad, f.switcher, f.code, rest);
    var afterLang := f.gap + named;
    var afterFence := f.lang + afterLang;
    assert named[0..][..10] == "filename=\"";
    ContainsAt(named, "filename=\"", 0);
    assert afterLang[|f.gap|..] == named;
    ContainsSuffix(afterLang, "filename=\"", |f.gap|);
    assert afterFence[|f.lang|..] == afterLang;
    ContainsSuffix(afterFence, "filename=\"", |f.lang|);
    assert t[3..] == afterFence;
    ContainsSuffix(t, "filename=\"", 3);
  }

  /** Text without `filename="` in it has no fence to rewrite and comes out unchanged. */
  lemma CodeBlocksUntouched(md: string)
    requires !Contains(md, "filename=\"")
    ensures PreprocessCodeBlocks(md) == md
  {
    FenceMatchAdvances();
    forall i | 0 <= i < |md|
      ensures FenceMatch(md[i..]).None?
    {
      if FenceAt(md[i..]).Some? {
        var (f, rest) := FenceAt(md[i..]).value;
        FenceHoldsFilename(md[i..], f, rest);
        ContainsSuffix(md, "filename=\"", i);
      }
    }
    NoMatchUnchanged(md, FenceMatch);
  }

  // The usual form of an annotated fence is matched whole.

  /** Code the pattern reads as a whole after a single newline: the blanks
      it starts with hold no newline and are not followed by `switcher` and
      a newline, and it holds no fence. */
  predicate PlainCode(code: string) {
    CodeStart(code) && CodeClean(code)
  }

  /** A run of word characters followed by a non-word character is the word run. */
  lemma WordRunAt(w: string, rest: string)
    requires AllWord(w) && rest != [] && !IsWordChar(rest[0])
    ensures WordRun(w + rest) == |w|
    ensures (w + rest)[..|w|] == w && (w + rest)[|w|..] == rest
  {
    var t := w + rest;
    assert forall i :: 0 <= i < |w| ==> t[i] == w[i];
    assert t[|w|] == rest[0];
  }

  /** A run of blanks followed by a non-blank is the leading blanks. */
  lemma SpacesAt(sp: string, rest: string)
    requires AllSpace(sp) && rest != [] && !IsSpace(rest[0])
    ensures LeadingSpaces(sp + rest) == |sp|
    ensures (sp + rest)[..|sp|] == sp && (sp + rest)[|sp|..] == rest
  {
    var t := sp + rest;
    assert forall i :: 0 <= i < |sp| ==> t[i] == sp[i];
    assert t[|sp|] == rest[0];
  }

  /** A name without `"` followed by `"` is the name run. */
  lemma NameRunAt(name: string, rest: string)
    requires '"' !in name
    ensures RunUntil(name + ("\"" + rest), '"') == |name|
    ensures (name + ("\"" + rest))[..|name|] == name && (name + ("\"" + rest))[|name| + 1..] == rest
  {
    var t := name + ("\"" + rest);
    assert forall i :: 0 <= i < |name| ==> t[i] == name[i];
    assert t[|name|] == '"';
  }

  /** A file name in quotes, then a tail the pattern reads, is read whole. */
  lemma NamedComplete(filename: string, s: string, c: Close)
    requires filename != [] && '"' !in filename
    requires CloseAt(s) == Some(c)
    ensures NamedAt("filename=\"" + (filename + ("\"" + s))) == Some(Named(filename, c))
  {
    var u := filename + ("\"" + s);
    assert NameThen(u) == Some(Named(filename, c)) by {
      NameRunAt(filename, s);
    }
    assert NamedAt("filename=\"" + u) == NameThen(u) by {
      StartsWithThen("filename=\"", u);
    }
  }

  /** The fence pattern after a word language tag and blanks: the rest is
      what `NamedAt` makes of the text after the blanks. */
  lemma FenceAtParts(lang: string, gap: string, s: string)
    requires AllWord(lang) && gap != [] && AllSpace(gap)
    requires s != [] && !IsSpace(s[0])
    ensures FenceAt("```" + (lang + (gap + s)))
            == match NamedAt(s)
               case None => None
               case Some(n) => Some((Fence(lang, gap, n.filename, n.close.pad, n.close.switcher, n.close.code), n.close.rest))
  {
    var t := "```" + (lang + (gap + s));
    assert StartsWith(t, "```") && t[3..] == lang + (gap + s);
    var s1 := t[3..];
    assert !IsWordChar(gap[0]);
    assert WordRun(s1) == |lang| && s1[..|lang|] == lang && s1[|lang|..] == gap + s by {
      WordRunAt(lang, gap + s);
    }
    var s2 := s1[|lang|..];
    assert LeadingSpaces(s2) == |gap| && s2[..|gap|] == gap && s2[|gap|..] == s by {
      SpacesAt(gap, s);
    }
  }

  /** The usual form of an annotated fence: the opening fence and language
      tag, one space, the file name in quotes, a newline, the code and the
      closing fence. */
  function PlainFence(lang: string, filename: string, code: string): string {
    "```" + (lang + (" " + ("filename=\"" + (filename + ("\"" + ("\n" + (code + "```")))))))
  }

  /** Every well-formed fence is matched, and read back into exactly its parts. */
  lemma FenceComplete(f: Fence, rest: string)
    requires WellFormed(f)
    ensures FenceAt(FenceThen(f, rest)) == Some((f, rest))
  {
    NamedOfFence(f, rest);
    HeadComplete(f.lang, f.gap, NamedThen(f.filename, f.pad, f.switcher, f.code, rest),
                 Named(f.filename, Close(f.pad, f.switcher, f.code, rest)));
  }

  /** The text of a well-formed fence from `filename="` on is read whole. */
  lemma NamedOfFence(f: Fence, rest: string)
    requires WellFormed(f)
    ensures var named := NamedThen(f.filename, f.pad, f.switcher, f.code, rest);
            named != [] && !IsSpace(named[0]) &&
            NamedAt(named) == Some(Named(f.filename, Close(f.pad, f.switcher, f.code, rest)))
  {
    var c := Close(f.pad, f.switcher, f.code, rest);
    var named := NamedThen(f.filename, f.pad, f.switcher, f.code, rest);
    CloseComplete(f.pad, f.switcher, f.code, rest);
    NamedComplete(f.filename, CloseThen(f.pad, f.switcher, f.code, rest), c);
    assert named[0] == 'f';
  }

  /** The fence pattern after a word language tag and blanks, when the text
      after them is read by `NamedAt`. */
  lemma HeadComplete(lang: string, gap: string, s: string, n: Named)
    requires AllWord(lang) && gap != [] && AllSpace(gap)
    requires s != [] && !IsSpace(s[0]) && NamedAt(s) == Some(n)
    ensures FenceAt("```" + (lang + (gap + s)))
            == Some((Fence(lang, gap, n.filename, n.close.pad, n.close.switcher, n.close.code), n.close.rest))
  {
    FenceAtParts(lang, gap, s);
  }

  /** A text is the text of at most one well-formed fence: the parts,
      the code among them, are fixed by the text. */
  lemma FenceUnique(f: Fence, rest: string, g: Fence, rest': string)
    requires WellFormed(f) && WellFormed(g)
    requires FenceThen(f, rest) == FenceThen(g, rest')
    ensures f == g && rest == rest'
  {
    FenceComplete(f, rest);
    FenceComplete(g, rest');
  }

  /** The usual form, as the fence it is made of. */
  lemma PlainFenceParts(lang: string, filename: string, pad: string, code: string)
    ensures "```" + (lang + (" " + ("filename=\"" + (filename + ("\"" + (pad + (code + "```")))))))
            == FenceThen(Fence(lang, " ", filename, pad, false, code), "")
  {
    assert CloseThen(pad, false, code, "") == pad + (code + "```");
  }

  /** The usual form is matched as one fence, up to the end of the text. */
  lemma PlainFenceAt(lang: string, filename: string, code: string)
    requires AllWord(lang)
    requires filename != [] && '"' !in filename
    requires PlainCode(code)
    ensures FenceAt(PlainFence(lang, filename, code)) == Some((Fence(lang, " ", filename, "\n", false, code), ""))
  {
    PlainFenceParts(lang, filename, "\n", code);
    FenceComplete(Fence(lang, " ", filename, "\n", false, code), "");
  }

  /** An annotated fence in its usual form is rewritten as a whole: the
      header naming the file, then the code, unchanged, in a fence tagged
      with the language. */
  lemma PlainFenceRewritten(lang: string, filename: string, code: string)
    requires AllWord(lang)
    requires filename != [] && '"' !in filename
    requires PlainCode(code)
    ensures PreprocessCodeBlocks(PlainFence(lang, filename, code))
            == CodeHeader(filename, lang) + "\n```" + lang + "\n" + code + "\n```"
  {
    PlainFenceAt(lang, filename, code);
    WholeFence(PlainFence(lang, filename, code), Fence(lang, " ", filename, "\n", false, code));
  }

  /** Code whose first line is blank loses that line: the newline after the
      file name and the blank line are both taken as the blanks before the
      code, so the fence is rewritten exactly as the one without the blank line. */
  lemma BlankFirstLineDropped(lang: string, filename: string, code: string)
    requires AllWord(lang)
    requires filename != [] && '"' !in filename
    requires PlainCode(code)
    ensures FenceAt(PlainFence(lang, filename, "\n" + code))
            == Some((Fence(lang, " ", filename, "\n\n", false, code), ""))
    ensures PreprocessCodeBlocks(PlainFence(lang, filename, "\n" + code))
            == PreprocessCodeBlocks(PlainFence(lang, filename, code))
  {
    var f := Fence(lang, " ", filename, "\n\n", false, code);
    assert PlainFence(lang, filename, "\n" + code) == FenceThen(f, "") by {
      assert "\n" + (("\n" + code) + "```") == "\n\n" + (code + "```");
      PlainFenceParts(lang, filename, "\n\n", code);
    }
    FenceComplete(f, "");
    WholeFence(PlainFence(lang, filename, "\n" + code), f);
    PlainFenceRewritten(lang, filename, code);
  }
}

/** `find_latest_version`: every `v<digits>.<digits>.<digits>` token of the
    exported HTML is collected (`re.findall` with one group), and the greatest
    of them under numeric release ordering (`packaging.version.parse`) is the
    version printed on the cover. */
module Versions {
  import opened Wrappers
  import opened Text
  import opened Scanner

  // ---------------------------------------------------------------------
  // The pattern v(\d+\.\d+\.\d+)

  /** Length of the run of ASCII digits at the front of `t`. */
  function DigitRun(t: string): (k: nat)
    ensures k <= |t|
    ensures forall i :: 0 <= i < k ==> IsDigit(t[i])
    ensures k < |t| ==> !IsDigit(t[k])
    decreases |t|
  {
    if t != [] && IsDigit(t[0]) then 1 + DigitRun(t[1..]) else 0
  }

  /** A run of digits, cut off the front of `t`, is a digit group. */
  lemma DigitRunGroup(t: string)
    requires DigitRun(t) > 0
    ensures DigitGroup(t[..DigitRun(t)]) && t == t[..DigitRun(t)] + t[DigitRun(t)..]
  {
  }

  /** The three digit groups of a matched token. */
  datatype Token = Token(major: string, minor: string, micro: string)

  predicate DigitGroup(d: string) {
    d != [] && AllDigits(d)
  }

  predicate WellFormed(tok: Token) {
    DigitGroup(tok.major) && DigitGroup(tok.minor) && DigitGroup(tok.micro)
  }

  /** The text the pattern's group captures: `major.minor.micro`. */
  function TokenText(tok: Token): string {
    tok.major + "." + tok.minor + "." + tok.micro
  }

  /** The text of a token after its `v`, followed by `rest`. */
  function TokenThen(tok: Token, rest: string): string {
    tok.major + ("." + (tok.minor + ("." + (tok.micro + rest))))
  }

  /** A digit group and the dot after it, at the front of `s`. */
  function DottedAt(s: string): (r: Option<(string, string)>)
    ensures r.Some? ==> DigitGroup(r.value.0) && s == r.value.0 + ("." + r.value.1)
  {
    var k := DigitRun(s);
    if k == 0 || k == |s| || s[k] != '.' then None
    else
      assert s == s[..k] + ("." + s[k + 1..]);
      Some((s[..k], s[k + 1..]))
  }

  /** The token at the front of `t`, with the text after it. Each `\d+` is
      greedy, and a shorter run could not be followed by the `.` or could
      only end the token earlier, so the maximal runs are what `re` picks. */
  function TokenAt(t: string): (r: Option<(Token, string)>)
    ensures r.Some? ==> WellFormed(r.value.0) && t == "v" + TokenThen(r.value.0, r.value.1)
    ensures r.Some? ==> r.value.1 == [] || !IsDigit(r.value.1[0])
  {
    if !StartsWith(t, "v") then None
    else
      StartsWithRest(t, "v");
      var s1 := t[1..];
      match DottedAt(s1)
      case None => None
      case Some((a, s2)) =>
        match DottedAt(s2)
        case None => None
        case Some((b, s3)) =>
          var c := DigitRun(s3);
          if c == 0 then None
          else
            DigitRunGroup(s3);
            Some((Token(a, b, s3[..c]), s3[c..]))
  }

  function VersionMatch(t: string): (r: Option<Match>)
    ensures r.Some? ==> 0 < r.value.len <= |t|
  {
    var r := TokenAt(t);
    if r.None? then None else Some(Match(|t| - |r.value.1|, TokenText(r.value.0)))
  }

  lemma VersionMatchAdvances()
    ensures Advances(VersionMatch)
  {
  }

  /** A digit group followed by a dot is read as that group. */
  lemma DottedComplete(d: string, rest: string)
    requires DigitGroup(d)
    ensures DottedAt(d + ("." + rest)) == Some((d, rest))
  {
    var s := d + ("." + rest);
    assert forall i :: 0 <= i < |d| ==> s[i] == d[i];
    assert s[|d|] == '.';
    assert DigitRun(s) == |d|;
    assert s[..|d|] == d && s[|d| + 1..] == rest;
  }

  /** Wherever `v` and three dot-separated digit groups start a text, the
      pattern matches there. */
  lemma VersionMatchComplete(tok: Token, rest: string)
    requires WellFormed(tok)
    ensures VersionMatch("v" + TokenThen(tok, rest)).Some?
  {
    var t := "v" + TokenThen(tok, rest);
    assert t[..1] == "v";
    var s3 := tok.micro + rest;
    var s2 := tok.minor + ("." + s3);
    assert t[1..] == tok.major + ("." + s2);
    DottedComplete(tok.major, s2);
    DottedComplete(tok.minor, s3);
    assert s3[0] == tok.micro[0];
  }

  // ---------------------------------------------------------------------
  // packaging.version.parse on a matched token

  /** The release segment of a parsed version. */
  datatype Release = Release(major: nat, minor: nat, micro: nat)

  /** A dotted string of three digit groups. */
  predicate IsVersionText(s: string) {
    var parts := Split(s, '.');
    |parts| == 3 && DigitGroup(parts[0]) && DigitGroup(parts[1]) && DigitGroup(parts[2])
  }

  /** `version.parse`: each group read as a decimal integer (leading zeros ignored). */
  function ParseVersion(s: string): Release
    requires IsVersionText(s)
  {
    var parts := Split(s, '.');
    Release(DigitsValue(parts[0]), DigitsValue(parts[1]), DigitsValue(parts[2]))
  }

  /** A token's text splits back into its three groups. */
  lemma TokenSplits(tok: Token)
    requires WellFormed(tok)
    ensures Split(TokenText(tok), '.') == [tok.major, tok.minor, tok.micro]
    ensures IsVersionText(TokenText(tok))
    ensures ParseVersion(TokenText(tok))
            == Release(DigitsValue(tok.major), DigitsValue(tok.minor), DigitsValue(tok.micro))
  {
    var tail := tok.minor + ['.'] + tok.micro;
    assert '.' !in tok.major && '.' !in tok.minor && '.' !in tok.micro;
    assert TokenText(tok) == tok.major + ['.'] + tail;
    SplitPeel(tok.major, tail, '.');
    SplitPeel(tok.minor, tok.micro, '.');
    SplitWhole(tok.micro, '.');
  }

  /** Every text the pattern captures is a version text. */
  lemma VersionMatchParses(t: string)
    requires VersionMatch(t).Some?
    ensures IsVersionText(VersionMatch(t).value.repl)
  {
    TokenSplits(TokenAt(t).value.0);
  }

  /** Every token `findall` reports is a version text. */
  lemma FoundVersions(s: string)
    requires Advances(VersionMatch)
    ensures AllVersions(FindAll(s, VersionMatch))
  {
    forall k | 0 <= k < |FindAll(s, VersionMatch)|
      ensures IsVersionText(FindAll(s, VersionMatch)[k])
    {
      FoundAtSomePosition(s, VersionMatch, k);
      var j :| 0 <= j < |s| && VersionMatch(s[j..]).Some? &&
               VersionMatch(s[j..]).value.repl == FindAll(s, VersionMatch)[k];
      VersionMatchParses(s[j..]);
    }
  }

  // ---------------------------------------------------------------------
  // Ordering and the latest version

  /** `x < y` between parsed versions: numeric, component by component. */
  predicate Older(x: Release, y: Release) {
    x.major < y.major ||
    (x.major == y.major && (x.minor < y.minor || (x.minor == y.minor && x.micro < y.micro)))
  }

  /** `Older` is a strict total order on releases. */
  lemma OlderOrder(x: Release, y: Release, z: Release)
    ensures !Older(x, x)
    ensures Older(x, y) && Older(y, z) ==> Older(x, z)
    ensures x == y || Older(x, y) || Older(y, x)
  {
  }

  predicate AllVersions(ts: seq<string>) {
    forall i :: 0 <= i < |ts| ==> IsVersionText(ts[i])
  }

  /** The first element of `sorted(set(ts), key=version.parse, reverse=True)`:
      a greatest version among the tokens, none when there is no token. */
  function LatestOf(ts: seq<string>): (r: Option<string>)
    requires AllVersions(ts)
    ensures r.None? <==> ts == []
    ensures r.Some? ==> r.value in ts &&
                        forall i :: 0 <= i < |ts| ==> !Older(ParseVersion(r.value), ParseVersion(ts[i]))
    decreases |ts|
  {
    if ts == [] then None
    else
      var last := ts[|ts| - 1];
      var init := ts[..|ts| - 1];
      assert ts == init + [last];
      match LatestOf(init)
      case None => Some(last)
      case Some(m) =>
        if Older(ParseVersion(m), ParseVersion(last)) then Some(last) else Some(m)
  }

  /** `version_pattern.findall(html)`: the captured texts, left to right. */
  function Tokens(html: string): (ts: seq<string>)
    ensures AllVersions(ts)
  {
    VersionMatchAdvances();
    FoundVersions(html);
    FindAll(html, VersionMatch)
  }

  /** `find_latest_version`. */
  function FindLatestVersion(html: string): Option<string> {
    LatestOf(Tokens(html))
  }

  /** No version is found exactly when the pattern matches nowhere in the text;
      one that is found is a version text no other found token is newer than. */
  lemma LatestVersionSpec(html: string)
    ensures FindLatestVersion(html).None? <==> forall i :: 0 <= i < |html| ==> VersionMatch(html[i..]).None?
    ensures FindLatestVersion(html).Some? ==>
              var found := Tokens(html);
              var v := FindLatestVersion(html).value;
              v in found && IsVersionText(v) &&
              forall i :: 0 <= i < |found| ==> !Older(ParseVersion(v), ParseVersion(found[i]))
  {
    VersionMatchAdvances();
    FoundVersions(html);
    if FindLatestVersion(html).None? {
      NothingFoundNoMatch(html, VersionMatch);
    } else if forall i :: 0 <= i < |html| ==> VersionMatch(html[i..]).None? {
      NoMatchUnchanged(html, VersionMatch);
    }
  }

  /** A release written out as `major.minor.micro`. */
  function ReleaseText(r: Release): string {
    TokenText(Token(NatToString(r.major), NatToString(r.minor), NatToString(r.micro)))
  }

  /** Parsing a written-out release gives it back. */
  lemma ReleaseRoundTrip(r: Release)
    ensures IsVersionText(ReleaseText(r)) && ParseVersion(ReleaseText(r)) == r
  {
    TokenSplits(Token(NatToString(r.major), NatToString(r.minor), NatToString(r.micro)));
    DigitsRoundTrip(r.major);
    DigitsRoundTrip(r.minor);
    DigitsRoundTrip(r.micro);
  }

  /** Of three tokens, the middle one is the latest when both others are older. */
  lemma LatestOfThree(x: string, y: string, z: string)
    requires IsVersionText(x) && IsVersionText(y) && IsVersionText(z)
    requires Older(ParseVersion(x), ParseVersion(y)) && Older(ParseVersion(z), ParseVersion(y))
    ensures AllVersions([x, y, z]) && LatestOf([x, y, z]) == Some(y)
  {
    var ts := [x, y, z];
    assert ts[..2][..1] == [x];
    assert ts[..2] == [x, y];
  }

  /** A token spelled out as digit groups parses to their values. */
  lemma ParsesAs(s: string, tok: Token, r: Release)
    requires WellFormed(tok) && TokenText(tok) == s
    requires r == Release(DigitsValue(tok.major), DigitsValue(tok.minor), DigitsValue(tok.micro))
    ensures IsVersionText(s) && ParseVersion(s) == r
  {
    TokenSplits(tok);
  }

  lemma ParseOneTenZero()
    ensures IsVersionText("1.10.0") && ParseVersion("1.10.0") == Release(1, 10, 0)
  {
    assert "10"[..1] == "1";
    ParsesAs("1.10.0", Token("1", "10", "0"), Release(1, 10, 0));
  }

  lemma ParseOneNineNine()
    ensures IsVersionText("1.9.9") && ParseVersion("1.9.9") == Release(1, 9, 9)
  {
    ParsesAs("1.9.9", Token("1", "9", "9"), Release(1, 9, 9));
  }

  lemma ParseOneTwoZero()
    ensures IsVersionText("1.2.0") && ParseVersion("1.2.0") == Release(1, 2, 0)
  {
    ParsesAs("1.2.0", Token("1", "2", "0"), Release(1, 2, 0));
  }

  /** Ordering is numeric, not textual: of `1.2.0`, `1.10.0` and `1.9.9`, the
      latest is `1.10.0`, though it sorts before `1.9.9` as a string. */
  lemma NumericNotTextual()
    ensures AllVersions(["1.2.0", "1.10.0", "1.9.9"])
    ensures LatestOf(["1.2.0", "1.10.0", "1.9.9"]) == Some("1.10.0")
  {
    ParseOneTwoZero();
    ParseOneTenZero();
    ParseOneNineNine();
    LatestOfThree("1.2.0", "1.10.0", "1.9.9");
  }
}

/** The table of contents: a hierarchical counter with one slot per depth
    level, the dotted numbering it renders and the entry line each document
    gets. */
module Toc {
  import opened Text
  import opened Paths

  // ---------------------------------------------------------------------
  // The counter as a value

  function Zeros(n: nat): (z: seq<nat>)
    ensures |z| == n && forall i :: 0 <= i < n ==> z[i] == 0
  {
    seq(n, _ => 0)
  }

  /** Slot `i` of a counter, where slots past its end count as zero. */
  function Slot(ns: seq<nat>, i: nat): nat {
    if i < |ns| then ns[i] else 0
  }

  /** The counter after a document at `depth`: padded with zero slots until
      slot `depth` exists, that slot counted up and every deeper slot cleared. */
  function Advance(ns: seq<nat>, depth: nat): seq<nat> {
    Bumped(Grown(ns, depth), depth)
  }

  /** The counter padded with zero slots until slot `depth` exists. */
  function Grown(ns: seq<nat>, depth: nat): (grown: seq<nat>)
    ensures depth < |grown|
  {
    if |ns| <= depth then ns + Zeros(depth + 1 - |ns|) else ns
  }

  /** Slot `depth` counted up and every deeper slot cleared. */
  function Bumped(grown: seq<nat>, depth: nat): seq<nat>
    requires depth < |grown|
  {
    grown[..depth] + [grown[depth] + 1] + Zeros(|grown| - depth - 1)
  }

  function Max(a: nat, b: nat): nat {
    if a < b then b else a
  }

  /** One visit: the counter reaches past `depth`, the slot at `depth` goes up
      by one, the slots above it keep their counts and every deeper slot is zero. */
  lemma AdvanceShape(ns: seq<nat>, depth: nat)
    ensures var r := Advance(ns, depth);
            |r| == Max(|ns|, depth + 1) &&
            r[depth] == Slot(ns, depth) + 1 &&
            (forall i :: 0 <= i < depth ==> r[i] == Slot(ns, i)) &&
            (forall i :: depth < i < |r| ==> r[i] == 0)
  {
    var grown := Grown(ns, depth);
    assert forall i :: 0 <= i < |grown| ==> grown[i] == Slot(ns, i);
    var r := Advance(ns, depth);
    assert r == grown[..depth] + [grown[depth] + 1] + Zeros(|grown| - depth - 1);
    forall i | depth < i < |r|
      ensures r[i] == 0
    {
      assert r[i] == Zeros(|grown| - depth - 1)[i - depth - 1];
    }
  }

  // ---------------------------------------------------------------------
  // Numbering text

  /** `map(str, slots)`. */
  function Render(slots: seq<nat>): (parts: seq<string>)
    ensures |parts| == |slots|
    decreases |slots|
  {
    if slots == [] then [] else [NatToString(slots[0])] + Render(slots[1..])
  }

  lemma {:induction false} RenderAt(slots: seq<nat>, k: nat)
    requires k < |slots|
    ensures Render(slots)[k] == NatToString(slots[k])
    decreases k
  {
    if k > 0 {
      RenderAt(slots[1..], k - 1);
    }
  }

  /** `'.'.join(map(str, numbering[:depth + 1]))`. */
  function Label(ns: seq<nat>, depth: nat): string
    requires depth < |ns|
  {
    Join(Render(ns[..depth + 1]), '.')
  }

  /** A digit string holds no dot. */
  lemma NoDotInNumber(n: nat)
    ensures '.' !in NatToString(n)
  {
    var s := NatToString(n);
    assert forall i :: 0 <= i < |s| ==> IsDigit(s[i]);
  }

  /** The label has exactly `depth + 1` dot-separated components, the
      decimal counts of slots `0..depth`. */
  lemma LabelComponents(ns: seq<nat>, depth: nat)
    requires depth < |ns|
    ensures Split(Label(ns, depth), '.') == Render(ns[..depth + 1])
    ensures |Split(Label(ns, depth), '.')| == depth + 1
  {
    var parts := Render(ns[..depth + 1]);
    forall k | 0 <= k < |parts|
      ensures '.' !in parts[k]
    {
      RenderAt(ns[..depth + 1], k);
      NoDotInNumber(ns[..depth + 1][k]);
    }
    SplitJoin(parts, '.');
  }

  /** Different slot prefixes render to different labels. */
  lemma LabelsDistinct(ns: seq<nat>, d: nat, ms: seq<nat>, e: nat)
    requires d < |ns| && e < |ms|
    requires ns[..d + 1] != ms[..e + 1]
    ensures Label(ns, d) != Label(ms, e)
  {
    if Label(ns, d) == Label(ms, e) {
      LabelComponents(ns, d);
      LabelComponents(ms, e);
      var a := ns[..d + 1];
      var b := ms[..e + 1];
      assert Render(a) == Render(b);
      forall k | 0 <= k < |a|
        ensures a[k] == b[k]
      {
        RenderAt(a, k);
        RenderAt(b, k);
        NatToStringInjective(a[k], b[k]);
      }
    }
  }

  /** After a visit the numbering differs from every numbering the counter
      showed before at the same depth: the slot at that depth only grows
      while the slots above it stay. */
  lemma VisitRenumbers(ns: seq<nat>, depth: nat)
    requires depth < |ns|
    ensures Label(Advance(ns, depth), depth) != Label(ns, depth)
  {
    AdvanceShape(ns, depth);
    var r := Advance(ns, depth);
    assert r[..depth + 1][depth] != ns[..depth + 1][depth];
    LabelsDistinct(r, depth, ns, depth);
  }

  // ---------------------------------------------------------------------
  // The counter as the exporter keeps it

  /** A counter that extends `start` with zero slots is `start` padded with `Zeros`. */
  lemma Padded(ns: seq<nat>, start: seq<nat>)
    requires |start| <= |ns| && ns[..|start|] == start
    requires forall k :: |start| <= k < |ns| ==> ns[k] == 0
    ensures ns == start + Zeros(|ns| - |start|)
  {
    var r := start + Zeros(|ns| - |start|);
    forall k | 0 <= k < |ns|
      ensures ns[k] == r[k]
    {
      if k < |start| {
        assert ns[k] == ns[..|start|][k];
      }
    }
  }

  /** A counter that agrees with `grown` above `depth`, is one more at
      `depth` and zero below is what a visit makes of `grown`. */
  lemma Cleared(ns: seq<nat>, grown: seq<nat>, depth: nat)
    requires depth < |grown| == |ns|
    requires ns[..depth] == grown[..depth] && ns[depth] == grown[depth] + 1
    requires forall k :: depth < k < |ns| ==> ns[k] == 0
    ensures ns == grown[..depth] + [grown[depth] + 1] + Zeros(|grown| - depth - 1)
  {
    var r := grown[..depth] + [grown[depth] + 1] + Zeros(|grown| - depth - 1);
    forall k | 0 <= k < |ns|
      ensures ns[k] == r[k]
    {
      if k < depth {
        assert ns[k] == ns[..depth][k];
      }
    }
  }

  /** The `numbering` list of `process_files`, updated in place per document. */
  class TocCounter {
    var numbering: seq<nat>

    ghost predicate Valid()
      reads this
    {
      |numbering| >= 1
    }

    /** `numbering = [0]`. */
    constructor()
      ensures Valid() && numbering == [0]
    {
      numbering := [0];
    }

    /** A document at `depth` is numbered: the list grows, the slot at
        `depth` is counted up, deeper slots are cleared, and the label of the
        slots up to `depth` is returned. */
    method Visit(depth: nat) returns (shown: string)
      requires Valid()
      modifies this
      ensures Valid()
      ensures numbering == Advance(old(numbering), depth)
      ensures depth < |numbering| && shown == Label(numbering, depth)
    {
      Grow(depth);
      Bump(depth);
      shown := Label(numbering, depth);
    }

    /** Zero slots are appended until slot `depth` exists. */
    method Grow(depth: nat)
      requires Valid()
      modifies this
      ensures Valid() && numbering == Grown(old(numbering), depth)
    {
      ghost var start := numbering;
      while |numbering| <= depth
        invariant |start| <= |numbering|
        invariant numbering[..|start|] == start
        invariant forall k :: |start| <= k < |numbering| ==> numbering[k] == 0
        invariant |start| <= depth ==> |numbering| <= depth + 1
        invariant |start| > depth ==> numbering == start
        decreases depth + 1 - |numbering|
      {
        numbering := numbering + [0];
      }
      Padded(numbering, start);
    }

    /** Slot `depth` is counted up and every deeper slot set to zero. */
    method Bump(depth: nat)
      requires depth < |numbering|
      modifies this
      ensures Valid() && numbering == Bumped(old(numbering), depth)
    {
      ghost var grown := numbering;
      numbering := numbering[depth := numbering[depth] + 1];
      for i := depth + 1 to |numbering|
        invariant |numbering| == |grown|
        invariant numbering[..depth] == grown[..depth]
        invariant numbering[depth] == grown[depth] + 1
        invariant forall k :: depth < k < i ==> numbering[k] == 0
        invariant forall k :: i <= k < |numbering| ==> numbering[k] == grown[k]
      {
        numbering := numbering[i := 0];
      }
      Cleared(numbering, grown, depth);
    }
  }

  // ---------------------------------------------------------------------
  // Entry lines

  /** `f"{toc_numbering} - {toc_title}"`. */
  function FullTitle(numbering: string, title: string): string {
    numbering + " - " + title
  }

  /** `s * n`. */
  function Repeat(s: string, n: nat): string {
    if n == 0 then "" else s + Repeat(s, n - 1)
  }

  /** `'&nbsp;' * 5 * depth`. */
  function Indent(depth: nat): string {
    Repeat("&nbsp;", 5 * depth)
  }

  /** The table-of-contents line: an indented link to the page's heading. */
  function TocLine(depth: nat, fullTitle: string): string {
    Indent(depth) + "<a href='#" + fullTitle + "'>" + fullTitle + "</a><br/>"
  }

  /** The default title: the file's stem, title-cased. */
  function DefaultTitle(path: string): string {
    TitleCase(Stem(Basename(path)))
  }

  // ---------------------------------------------------------------------
  // A worked sequence of visits

  /** The labels a fresh counter gives documents at the given depths. */
  function Labels(ns: seq<nat>, depths: seq<nat>): (ls: seq<string>)
    ensures |ls| == |depths|
    decreases |depths|
  {
    if depths == [] then []
    else
      var next := Advance(ns, depths[0]);
      AdvanceShape(ns, depths[0]);
      [Label(next, depths[0])] + Labels(next, depths[1..])
  }

  lemma AdvanceFirst()
    ensures Advance([0], 0) == [1] && Label([1], 0) == "1"
  {
    assert [1][..1] == [1];
  }

  lemma AdvanceSecond()
    ensures Advance([1], 1) == [1, 1] && Label([1, 1], 1) == "1.1"
  {
    assert [1, 1][..2] == [1, 1];
    assert Render([1, 1]) == ["1", "1"];
  }

  lemma AdvanceThird()
    ensures Advance([1, 1], 1) == [1, 2] && Label([1, 2], 1) == "1.2"
  {
    assert [1, 2][..2] == [1, 2];
    assert Render([1, 2]) == ["1", "2"];
  }

  lemma AdvanceFourth()
    ensures Advance([1, 2], 0) == [2, 0] && Label([2, 0], 0) == "2"
  {
    assert [2, 0][..1] == [2];
  }

  lemma AdvanceFifth()
    ensures Advance([2, 0], 1) == [2, 1] && Label([2, 1], 1) == "2.1"
  {
    assert [2, 1][..2] == [2, 1];
    assert Render([2, 1]) == ["2", "1"];
  }

  /** Depths 0, 1, 1, 0, 1 are numbered 1, 1.1, 1.2, 2, 2.1. */
  lemma WorkedNumbering()
    ensures Labels([0], [0, 1, 1, 0, 1]) == ["1", "1.1", "1.2", "2", "2.1"]
  {
    AdvanceFirst();
    AdvanceSecond();
    AdvanceThird();
    AdvanceFourth();
    AdvanceFifth();
    assert [0, 1, 1, 0, 1][1..] == [1, 1, 0, 1];
    assert [1, 1, 0, 1][1..] == [1, 0, 1];
    assert [1, 0, 1][1..] == [0, 1];
    assert [0, 1][1..] == [1];
    assert Labels([2, 1], []) == [];
  }

  // ---------------------------------------------------------------------
  // Every entry gets its own numbering

  /** The counters after each visit. */
  function Counters(ns: seq<nat>, depths: seq<nat>): (cs: seq<seq<nat>>)
    ensures |cs| == |depths|
    decreases |depths|
  {
    if depths == [] then [] else [Advance(ns, depths[0])] + Counters(Advance(ns, depths[0]), depths[1..])
  }

  /** Visit `k` advances the counter left by visit `k - 1` (or the start). */
  lemma {:induction false} CountersAt(ns: seq<nat>, depths: seq<nat>, k: nat)
    requires k < |depths|
    ensures Counters(ns, depths)[k] == Advance(if k == 0 then ns else Counters(ns, depths)[k - 1], depths[k])
    decreases k
  {
    if k > 0 {
      CountersAt(Advance(ns, depths[0]), depths[1..], k - 1);
      if k > 1 {
        assert Counters(ns, depths)[k - 1] == Counters(Advance(ns, depths[0]), depths[1..])[k - 2];
      }
    }
  }

  /** The label of visit `k` is the label of the counter after it. */
  lemma {:induction false} LabelsAt(ns: seq<nat>, depths: seq<nat>, k: nat)
    requires k < |depths|
    ensures depths[k] < |Counters(ns, depths)[k]|
    ensures Labels(ns, depths)[k] == Label(Counters(ns, depths)[k], depths[k])
    decreases k
  {
    AdvanceShape(ns, depths[0]);
    if k > 0 {
      LabelsAt(Advance(ns, depths[0]), depths[1..], k - 1);
    }
  }

  /** `a` comes before `b` when both are read as counters padded with zero
      slots: they agree up to a slot where `a` is lower. */
  ghost predicate Before(a: seq<nat>, b: seq<nat>) {
    exists i: nat :: Slot(a, i) < Slot(b, i) && forall j: nat :: j < i ==> Slot(a, j) == Slot(b, j)
  }

  lemma BeforeTransitive(a: seq<nat>, b: seq<nat>, c: seq<nat>)
    requires Before(a, b) && Before(b, c)
    ensures Before(a, c)
  {
    var i: nat :| Slot(a, i) < Slot(b, i) && forall j: nat :: j < i ==> Slot(a, j) == Slot(b, j);
    var k: nat :| Slot(b, k) < Slot(c, k) && forall j: nat :: j < k ==> Slot(b, j) == Slot(c, j);
    var m := if i < k then i else k;
    assert Slot(a, m) < Slot(c, m);
    assert forall j: nat :: j < m ==> Slot(a, j) == Slot(c, j);
  }

  /** A visit moves the counter strictly forward. */
  lemma AdvanceForward(ns: seq<nat>, depth: nat)
    ensures Before(ns, Advance(ns, depth))
  {
    AdvanceShape(ns, depth);
    var r := Advance(ns, depth);
    assert Slot(ns, depth) < Slot(r, depth);
    assert forall j: nat :: j < depth ==> Slot(ns, j) == Slot(r, j);
  }

  /** Later counters come after earlier ones. */
  lemma {:induction false} CountersForward(ns: seq<nat>, depths: seq<nat>, s: nat, t: nat)
    requires s < t < |depths|
    ensures Before(Counters(ns, depths)[s], Counters(ns, depths)[t])
    decreases t - s
  {
    var cs := Counters(ns, depths);
    assert Before(cs[t - 1], cs[t]) by {
      CountersAt(ns, depths, t);
      AdvanceForward(cs[t - 1], depths[t]);
    }
    if s < t - 1 {
      assert Before(cs[s], cs[t - 1]) by {
        CountersForward(ns, depths, s, t - 1);
      }
      BeforeTransitive(cs[s], cs[t - 1], cs[t]);
    }
  }

  /** The label after a visit pins down the whole counter, since every slot
      deeper than the visit is zero. */
  lemma LabelPinsCounter(ns: seq<nat>, d: nat, ms: seq<nat>, e: nat)
    requires Label(Advance(ns, d), d) == Label(Advance(ms, e), e)
    ensures forall i: nat :: Slot(Advance(ns, d), i) == Slot(Advance(ms, e), i)
  {
    AdvanceShape(ns, d);
    AdvanceShape(ms, e);
    var a := Advance(ns, d);
    var b := Advance(ms, e);
    if a[..d + 1] != b[..e + 1] {
      LabelsDistinct(a, d, b, e);
    }
    assert |a[..d + 1]| == |b[..e + 1]|;
    forall i: nat
      ensures Slot(a, i) == Slot(b, i)
    {
      if i <= d {
        assert a[..d + 1][i] == b[..e + 1][i];
      }
    }
  }

  /** However the documents are nested, no two of them get the same number. */
  lemma LabelsUnique(ns: seq<nat>, depths: seq<nat>, s: nat, t: nat)
    requires s < t < |depths|
    ensures Labels(ns, depths)[s] != Labels(ns, depths)[t]
  {
    var cs := Counters(ns, depths);
    LabelsAt(ns, depths, s);
    LabelsAt(ns, depths, t);
    CountersForward(ns, depths, s, t);
    CountersAt(ns, depths, s);
    CountersAt(ns, depths, t);
    var before := if s == 0 then ns else cs[s - 1];
    if Labels(ns, depths)[s] == Labels(ns, depths)[t] {
      LabelPinsCounter(before, depths[s], cs[t - 1], depths[t]);
      assert false;
    }
  }

  // ---------------------------------------------------------------------
  // Visits one at a time

  /** The counter after visits at the given depths. */
  function Final(ns: seq<nat>, depths: seq<nat>): seq<nat>
    decreases |depths|
  {
    if depths == [] then ns else Final(Advance(ns, depths[0]), depths[1..])
  }

  /** One more visit adds one label: the one of the counter it leaves. */
  lemma {:induction false} LabelsSnoc(ns: seq<nat>, depths: seq<nat>, d: nat)
    ensures d < |Advance(Final(ns, depths), d)|
    ensures Final(ns, depths + [d]) == Advance(Final(ns, depths), d)
    ensures Labels(ns, depths + [d]) == Labels(ns, depths) + [Label(Advance(Final(ns, depths), d), d)]
    decreases |depths|
  {
    AdvanceShape(Final(ns, depths), d);
    if depths != [] {
      var next := Advance(ns, depths[0]);
      assert (depths + [d])[0] == depths[0] && (depths + [d])[1..] == depths[1..] + [d];
      LabelsSnoc(next, depths[1..], d);
    }
  }
}

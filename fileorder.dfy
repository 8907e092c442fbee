/** `get_files_sorted`: every file the directory walk yields, ordered by a
    sort key in which the base name of an `index.md` or `index.mdx` file is
    prefixed with `!!!`, so that a directory's index document comes before
    the other files of that directory. */
module FileOrder {
  import opened Text
  import opened Paths

  // ---------------------------------------------------------------------
  // Python's ordering of strings

  /** `a < b` on Python strings: code points compared left to right, a proper
      prefix before its extensions. */
  predicate Less(a: string, b: string)
    decreases |a|
  {
    b != [] && (a == [] || a[0] < b[0] || (a[0] == b[0] && Less(a[1..], b[1..])))
  }

  predicate LessEq(a: string, b: string) {
    a == b || Less(a, b)
  }

  lemma {:induction false} LessIrreflexive(a: string)
    ensures !Less(a, a)
    decreases |a|
  {
    if a != [] {
      LessIrreflexive(a[1..]);
    }
  }

  lemma {:induction false} LessTransitive(a: string, b: string, c: string)
    requires Less(a, b) && Less(b, c)
    ensures Less(a, c)
    decreases |a|
  {
    if a != [] && a[0] == b[0] && b[0] == c[0] {
      LessTransitive(a[1..], b[1..], c[1..]);
    }
  }

  lemma {:induction false} LessTotal(a: string, b: string)
    ensures Less(a, b) || a == b || Less(b, a)
    decreases |a|
  {
    if a != [] && b != [] && a[0] == b[0] {
      LessTotal(a[1..], b[1..]);
      if a[1..] == b[1..] {
        assert a == [a[0]] + a[1..] && b == [b[0]] + b[1..];
      }
    }
  }

  lemma LessAsymmetric(a: string, b: string)
    requires Less(a, b)
    ensures !Less(b, a) && a != b
  {
    if Less(b, a) {
      LessTransitive(a, b, a);
      LessIrreflexive(a);
    }
    LessIrreflexive(a);
  }

  /** Two strings that agree up to a position and differ there are ordered by that position. */
  lemma {:induction false} LessAtDifference(p: string, x: string, y: string)
    requires x != [] && y != [] && x[0] < y[0]
    ensures Less(p + x, p + y)
    decreases |p|
  {
    if p != [] {
      assert (p + x)[1..] == p[1..] + x;
      assert (p + y)[1..] == p[1..] + y;
      LessAtDifference(p[1..], x, y);
    }
  }

  // ---------------------------------------------------------------------
  // Walk entries and their sort keys

  /** One step of `os.walk`: a directory and the names of the files in it. */
  datatype WalkDir = WalkDir(root: string, files: seq<string>)

  /** A walked file: its full path and its sort key. */
  datatype Entry = Entry(path: string, key: string)

  predicate IsIndexName(name: string) {
    name == "index.mdx" || name == "index.md"
  }

  function SortKey(root: string, name: string): string {
    PathJoin(root, if IsIndexName(name) then "!!!" + name else name)
  }

  function EntryOf(root: string, name: string): Entry {
    Entry(PathJoin(root, name), SortKey(root, name))
  }

  /** The entries of one directory, in the order the walk lists its files. */
  function DirEntries(root: string, names: seq<string>): (es: seq<Entry>)
    ensures |es| == |names|
    ensures forall i :: 0 <= i < |names| ==> es[i] == EntryOf(root, names[i])
    decreases |names|
  {
    if names == [] then [] else DirEntries(root, names[..|names| - 1]) + [EntryOf(root, names[|names| - 1])]
  }

  /** The entries of the whole walk, directory after directory. */
  function WalkEntries(walk: seq<WalkDir>): seq<Entry>
    decreases |walk|
  {
    if walk == [] then []
    else WalkEntries(walk[..|walk| - 1]) + DirEntries(walk[|walk| - 1].root, walk[|walk| - 1].files)
  }

  /** The entry the walk loop builds for `name` in `root`. */
  lemma LoopEntry(root: string, name: string)
    ensures Entry(PathJoin(root, name), PathJoin(root, if name in ["index.mdx", "index.md"] then "!!!" + name else name))
            == EntryOf(root, name)
  {
  }

  /** One file of the walk loop: appending its entry extends the directory's entries. */
  lemma FileStep(all: seq<Entry>, before: seq<Entry>, root: string, names: seq<string>, k: nat)
    requires k < |names| && all == before + DirEntries(root, names[..k])
    ensures all + [EntryOf(root, names[k])] == before + DirEntries(root, names[..k + 1])
  {
    assert names[..k + 1][..k] == names[..k];
    assert DirEntries(root, names[..k + 1]) == DirEntries(root, names[..k]) + [EntryOf(root, names[k])];
  }

  /** One directory of the walk loop: all its files make the next prefix of the walk. */
  lemma DirStep(all: seq<Entry>, walk: seq<WalkDir>, d: nat)
    requires d < |walk|
    requires all == WalkEntries(walk[..d]) + DirEntries(walk[d].root, walk[d].files[..|walk[d].files|])
    ensures all == WalkEntries(walk[..d + 1])
  {
    assert walk[d].files[..|walk[d].files|] == walk[d].files;
    assert walk[..d + 1][..d] == walk[..d];
  }

  function PathsOf(es: seq<Entry>): (ps: seq<string>)
    ensures |ps| == |es| && forall i :: 0 <= i < |es| ==> ps[i] == es[i].path
  {
    seq(|es|, i requires 0 <= i < |es| => es[i].path)
  }

  // ---------------------------------------------------------------------
  // Sorting by key (`list.sort(key=...)`, a stable sort)

  predicate SortedByKey(s: seq<Entry>) {
    forall i, j :: 0 <= i < j < |s| ==> LessEq(s[i].key, s[j].key)
  }

  /** Places `e` after every entry whose key is not greater than its own. */
  function Insert(e: Entry, s: seq<Entry>): seq<Entry>
    decreases |s|
  {
    if s == [] then [e]
    else if Less(e.key, s[0].key) then [e] + s
    else [s[0]] + Insert(e, s[1..])
  }

  function SortByKey(s: seq<Entry>): seq<Entry>
    decreases |s|
  {
    if s == [] then [] else Insert(s[|s| - 1], SortByKey(s[..|s| - 1]))
  }

  lemma {:induction false} InsertPermutes(e: Entry, s: seq<Entry>)
    ensures multiset(Insert(e, s)) == multiset(s) + multiset{e}
    decreases |s|
  {
    if s != [] && !Less(e.key, s[0].key) {
      InsertPermutes(e, s[1..]);
      assert s == [s[0]] + s[1..];
    }
  }

  lemma {:induction false} InsertSorted(e: Entry, s: seq<Entry>)
    requires SortedByKey(s)
    ensures SortedByKey(Insert(e, s))
    decreases |s|
  {
    if s == [] {
    } else if Less(e.key, s[0].key) {
      forall j | 0 <= j < |s|
        ensures Less(e.key, s[j].key)
      {
        if j > 0 && s[0].key != s[j].key {
          LessTransitive(e.key, s[0].key, s[j].key);
        }
      }
    } else {
      LessTotal(e.key, s[0].key);
      InsertSorted(e, s[1..]);
      InsertPermutes(e, s[1..]);
      var t := Insert(e, s[1..]);
      forall k | 0 <= k < |t|
        ensures LessEq(s[0].key, t[k].key)
      {
        assert t[k] in multiset(t);
        if t[k] != e {
          assert t[k] in multiset(s[1..]);
          var m :| 0 <= m < |s[1..]| && s[1..][m] == t[k];
          assert s[m + 1] == t[k];
        }
      }
    }
  }

  lemma {:induction false} SortByKeySorted(s: seq<Entry>)
    ensures SortedByKey(SortByKey(s))
    decreases |s|
  {
    if s != [] {
      SortByKeySorted(s[..|s| - 1]);
      InsertSorted(s[|s| - 1], SortByKey(s[..|s| - 1]));
    }
  }

  lemma {:induction false} SortByKeyPermutes(s: seq<Entry>)
    ensures multiset(SortByKey(s)) == multiset(s)
    decreases |s|
  {
    if s != [] {
      var init, last := s[..|s| - 1], s[|s| - 1];
      var sorted := SortByKey(init);
      assert SortByKey(s) == Insert(last, sorted);
      assert multiset(sorted) == multiset(init) by {
        SortByKeyPermutes(init);
      }
      assert multiset(Insert(last, sorted)) == multiset(sorted) + multiset{last} by {
        InsertPermutes(last, sorted);
      }
      assert multiset(s) == multiset(init) + multiset{last} by {
        assert s == init + [last];
      }
    }
  }

  /** The sort yields its input in ascending key order. */
  lemma SortByKeyCorrect(s: seq<Entry>)
    ensures SortedByKey(SortByKey(s))
    ensures multiset(SortByKey(s)) == multiset(s)
  {
    SortByKeySorted(s);
    SortByKeyPermutes(s);
  }

  /** The entries with key `k`, in the order they come. */
  function WithKey(s: seq<Entry>, k: string): (r: seq<Entry>)
    ensures |r| <= |s|
    decreases |s|
  {
    if s == [] then [] else (if s[0].key == k then [s[0]] else []) + WithKey(s[1..], k)
  }

  lemma {:induction false} WithKeySnoc(s: seq<Entry>, x: Entry, k: string)
    ensures WithKey(s + [x], k) == WithKey(s, k) + (if x.key == k then [x] else [])
    decreases |s|
  {
    if s != [] {
      assert (s + [x])[1..] == s[1..] + [x];
      WithKeySnoc(s[1..], x, k);
    }
  }

  /** A sorted list whose first key is above `k` holds no entry with key `k`. */
  lemma {:induction false} NoKeyAbove(s: seq<Entry>, k: string)
    requires SortedByKey(s) && s != [] && Less(k, s[0].key)
    ensures WithKey(s, k) == []
    decreases |s|
  {
    LessIrreflexive(k);
    if |s| > 1 {
      assert Less(k, s[1].key) by {
        if s[0].key != s[1].key {
          LessTransitive(k, s[0].key, s[1].key);
        }
      }
      NoKeyAbove(s[1..], k);
    }
  }

  lemma WithKeyCons(x: Entry, t: seq<Entry>, k: string)
    ensures WithKey([x] + t, k) == (if x.key == k then [x] else []) + WithKey(t, k)
  {
    assert ([x] + t)[1..] == t;
  }

  /** Insertion puts the new entry after every entry with the same key. */
  lemma {:induction false} InsertWithKey(e: Entry, s: seq<Entry>, k: string)
    requires SortedByKey(s)
    ensures WithKey(Insert(e, s), k) == WithKey(s, k) + (if e.key == k then [e] else [])
    decreases |s|
  {
    if s == [] {
    } else if Less(e.key, s[0].key) {
      WithKeyCons(e, s, k);
      if e.key == k {
        NoKeyAbove(s, k);
      }
    } else {
      assert WithKey(Insert(e, s[1..]), k) == WithKey(s[1..], k) + (if e.key == k then [e] else []) by {
        InsertWithKey(e, s[1..], k);
      }
      InsertWithKeyStep(e, s, k);
    }
  }

  /** Insertion past the first entry, given what it does to the rest. */
  lemma InsertWithKeyStep(e: Entry, s: seq<Entry>, k: string)
    requires s != [] && !Less(e.key, s[0].key)
    requires WithKey(Insert(e, s[1..]), k) == WithKey(s[1..], k) + (if e.key == k then [e] else [])
    ensures WithKey(Insert(e, s), k) == WithKey(s, k) + (if e.key == k then [e] else [])
  {
    var head := if s[0].key == k then [s[0]] else [];
    var tail := if e.key == k then [e] else [];
    assert WithKey(Insert(e, s), k) == head + WithKey(Insert(e, s[1..]), k) by {
      WithKeyCons(s[0], Insert(e, s[1..]), k);
    }
    assert WithKey(s, k) == head + WithKey(s[1..], k) by {
      assert s == [s[0]] + s[1..];
      WithKeyCons(s[0], s[1..], k);
    }
    Regroup(head, WithKey(s[1..], k), tail);
  }

  lemma Regroup(a: seq<Entry>, b: seq<Entry>, c: seq<Entry>)
    ensures a + (b + c) == (a + b) + c
  {
  }

  /** The sort is stable: entries with equal keys keep the order they had. */
  lemma {:induction false} SortByKeyStable(s: seq<Entry>, k: string)
    ensures WithKey(SortByKey(s), k) == WithKey(s, k)
    decreases |s|
  {
    if s != [] {
      var init, last := s[..|s| - 1], s[|s| - 1];
      assert WithKey(SortByKey(init), k) == WithKey(init, k) by {
        SortByKeyStable(init, k);
      }
      assert WithKey(Insert(last, SortByKey(init)), k)
             == WithKey(SortByKey(init), k) + (if last.key == k then [last] else []) by {
        SortByKeySorted(init);
        InsertWithKey(last, SortByKey(init), k);
      }
      assert WithKey(s, k) == WithKey(init, k) + (if last.key == k then [last] else []) by {
        assert s == init + [last];
        WithKeySnoc(init, last, k);
      }
    }
  }

  /** In a key-sorted list, an entry with a smaller key comes earlier. */
  lemma SortedPrecedes(s: seq<Entry>, i: nat, j: nat)
    requires SortedByKey(s) && i < |s| && j < |s|
    requires Less(s[i].key, s[j].key)
    ensures i < j
  {
    if j <= i {
      LessIrreflexive(s[i].key);
      if j < i {
        LessAsymmetric(s[i].key, s[j].key);
      }
    }
  }

  /** The sort key of an index document is smaller than any path under the
      same directory whose next character sorts after `!`. */
  lemma IndexKeyFirst(root: string, name: string, rest: string)
    requires IsIndexName(name)
    requires rest != [] && rest[0] > '!'
    ensures Less(SortKey(root, name), PathJoin(root, "") + rest)
  {
    JoinUnderDirectory(root, "!!!" + name);
    LessAtDifference(PathJoin(root, ""), "!!!" + name, rest);
  }

  /** `get_files_sorted`: collects (full path, sort key) pairs while walking,
      sorts them by key and keeps the paths. */
  method GetFilesSorted(walk: seq<WalkDir>) returns (files: seq<string>)
    ensures files == PathsOf(SortByKey(WalkEntries(walk)))
  {
    var all: seq<Entry> := [];
    for d := 0 to |walk|
      invariant all == WalkEntries(walk[..d])
    {
      var root := walk[d].root;
      var names := walk[d].files;
      for k := 0 to |names|
        invariant all == WalkEntries(walk[..d]) + DirEntries(root, names[..k])
      {
        var name := names[k];
        var fullPath := PathJoin(root, name);
        var modifiedBasename := if name in ["index.mdx", "index.md"] then "!!!" + name else name;
        var sortKey := PathJoin(root, modifiedBasename);
        LoopEntry(root, name);
        FileStep(all, WalkEntries(walk[..d]), root, names, k);
        all := all + [Entry(fullPath, sortKey)];
      }
      DirStep(all, walk, d);
    }
    assert walk[..|walk|] == walk;
    all := SortByKey(all);
    files := PathsOf(all);
  }

  /** The exported order: a permutation of the walked files, ascending by sort
      key, with each directory's index document before every file below that
      directory whose relative path starts with a character after `!`. */
  lemma ExportOrder(walk: seq<WalkDir>)
    ensures var sorted := SortByKey(WalkEntries(walk));
            SortedByKey(sorted) && multiset(sorted) == multiset(WalkEntries(walk))
    ensures var sorted := SortByKey(WalkEntries(walk));
            forall i, j, root, name, rest ::
              0 <= i < |sorted| && 0 <= j < |sorted| &&
              sorted[i] == EntryOf(root, name) && IsIndexName(name) &&
              sorted[j].key == PathJoin(root, "") + rest && rest != [] && rest[0] > '!'
              ==> i < j
  {
    var sorted := SortByKey(WalkEntries(walk));
    SortByKeyCorrect(WalkEntries(walk));
    forall i, j, root, name, rest |
      0 <= i < |sorted| && 0 <= j < |sorted| &&
      sorted[i] == EntryOf(root, name) && IsIndexName(name) &&
      sorted[j].key == PathJoin(root, "") + rest && rest != [] && rest[0] > '!'
      ensures i < j
    {
      IndexKeyFirst(root, name, rest);
      SortedPrecedes(sorted, i, j);
    }
  }
}

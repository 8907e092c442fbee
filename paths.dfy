/** The `os.path` operations the exporter applies to POSIX paths, and the
    depth of a document in the docs tree. */
module Paths {
  import opened Text
  import opened Wrappers

  /** `os.path.join(a, b)` with separator `/`. */
  function PathJoin(a: string, b: string): string {
    if StartsWith(b, "/") then b
    else if a == [] || a[|a| - 1] == '/' then a + b
    else a + "/" + b
  }

  /** A relative name is appended to the directory prefix `PathJoin(a, "")`. */
  lemma JoinUnderDirectory(a: string, b: string)
    requires !StartsWith(b, "/")
    ensures PathJoin(a, b) == PathJoin(a, "") + b
  {
  }

  /** `os.path.basename(p)`: the text after the last `/`. */
  function Basename(p: string): (r: string)
    ensures '/' !in r
    ensures |r| <= |p| && p[|p| - |r|..] == r
    ensures |r| < |p| ==> p[|p| - |r| - 1] == '/'
    decreases |p|
  {
    if p == [] || p[|p| - 1] == '/' then []
    else Basename(p[..|p| - 1]) + [p[|p| - 1]]
  }

  /** Position of the last `c` in `s`, if any. */
  function LastIndexOf(s: string, c: char): (r: Option<nat>)
    ensures r.None? <==> c !in s
    ensures r.Some? ==> r.value < |s| && s[r.value] == c && c !in s[r.value + 1..]
    decreases |s|
  {
    if s == [] then None
    else if s[|s| - 1] == c then Some(|s| - 1)
    else
      var r := LastIndexOf(s[..|s| - 1], c);
      assert s[..|s| - 1] + [s[|s| - 1]] == s;
      r
  }

  predicate AllDots(s: string) {
    forall i :: 0 <= i < |s| ==> s[i] == '.'
  }

  /** `os.path.splitext(name)[0]` for a base name: everything before the last
      `.`, unless only dots precede that `.` (a hidden file has no extension). */
  function Stem(name: string): (r: string)
    ensures StartsWith(name, r)
    ensures r != name ==> name[|r|] == '.' && '.' !in name[|r| + 1..] && !AllDots(r)
    ensures r == name ==> '.' !in name || (exists i :: 0 <= i < |name| && name[i] == '.' && AllDots(name[..i]) && '.' !in name[i + 1..])
  {
    match LastIndexOf(name, '.')
    case None => name
    case Some(d) => if AllDots(name[..d]) then name else name[..d]
  }

  /** Number of occurrences of `c` in `s` (Python's `s.count(c)`). */
  function CountChar(s: string, c: char): nat
    decreases |s|
  {
    if s == [] then 0 else (if s[0] == c then 1 else 0) + CountChar(s[1..], c)
  }

  /** A path with `n` separators has `n + 1` components. */
  lemma {:induction false} CountComponents(s: string, c: char)
    ensures |Split(s, c)| == CountChar(s, c) + 1
    decreases |s|
  {
    if s != [] {
      CountComponents(s[1..], c);
    }
  }

  lemma {:induction false} CountAppend(a: string, b: string, c: char)
    ensures CountChar(a + b, c) == CountChar(a, c) + CountChar(b, c)
    decreases |a|
  {
    if a == [] {
      assert a + b == b;
    } else {
      assert (a + b)[1..] == a[1..] + b;
      CountAppend(a[1..], b, c);
    }
  }

  lemma {:induction false} CountAbsent(s: string, c: char)
    requires c !in s
    ensures CountChar(s, c) == 0
    decreases |s|
  {
    if s != [] {
      CountAbsent(s[1..], c);
    }
  }

  /** The depth of a document: the number of separators in its docs-relative
      path, one less for an `index.*` file below the root, which stands for
      its directory. */
  function Depth(relPath: string): nat {
    var d := CountChar(relPath, '/');
    if StartsWith(Basename(relPath), "index.") && d > 0 then d - 1 else d
  }

  /** A directory's index document sits at the level of the directory itself:
      one above its sibling documents. */
  lemma IndexAtDirectoryLevel(dir: string, index: string, sibling: string)
    requires dir != [] && dir[|dir| - 1] != '/'
    requires '/' !in index && '/' !in sibling && StartsWith(index, "index.")
    requires !StartsWith(sibling, "index.")
    ensures Depth(dir + "/" + index) + 1 == Depth(dir + "/" + sibling)
    ensures Depth(dir + "/" + index) == CountChar(dir, '/')
  {
    DepthUnder(dir, index);
    DepthUnder(dir, sibling);
  }

  /** The depth of a name below a directory. */
  lemma DepthUnder(dir: string, name: string)
    requires dir != [] && '/' !in name
    ensures Depth(dir + "/" + name) == CountChar(dir, '/') + (if StartsWith(name, "index.") then 0 else 1)
  {
    var p := dir + "/" + name;
    assert CountChar(p, '/') == CountChar(dir, '/') + 1 by {
      CountUnder(dir, name);
    }
    assert Basename(p) == name by {
      BasenameAfterSlash(dir, name);
    }
  }

  /** A name without separators below a directory adds one separator. */
  lemma CountUnder(dir: string, name: string)
    requires '/' !in name
    ensures CountChar(dir + "/" + name, '/') == CountChar(dir, '/') + 1
  {
    CountAppend(dir + "/", name, '/');
    CountAppend(dir, "/", '/');
    CountAbsent(name, '/');
    assert CountChar("/", '/') == 1;
  }

  lemma BasenameAfterSlash(dir: string, name: string)
    requires '/' !in name
    ensures Basename(dir + "/" + name) == name
  {
    var p := dir + "/" + name;
    assert p[|p| - |name|..] == name;
    assert p[|p| - |name| - 1] == '/';
  }
}

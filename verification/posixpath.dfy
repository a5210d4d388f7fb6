/** `os.path.basename` on POSIX paths, and its agreement with `path.split('/')[-1]`. */
module PosixPath {
  import opened Text

  /** A `sep`-free tail of `p` that reaches back either to the start of `p` or to a
      `sep`: the longest `sep`-free suffix. */
  predicate IsFinalComponent(p: string, sep: char, r: string)
  {
    && sep !in r
    && |r| <= |p| && r == p[|p| - |r|..]
    && (|r| < |p| ==> p[|p| - |r| - 1] == sep)
  }

  /** `os.path.basename(p)`: the text after the last `/` (all of `p` when it has none,
      empty when `p` ends with `/`). */
  function Basename(p: string): (r: string)
    ensures IsFinalComponent(p, '/', r)
    decreases |p|
  {
    if |p| == 0 then ""
    else if p[|p| - 1] == '/' then ""
    else
      var init := p[..|p| - 1];
      ExtendFinalComponent(p, '/', Basename(init));
      Basename(init) + [p[|p| - 1]]
  }

  /** A non-separator appended to a path extends its final component. */
  lemma ExtendFinalComponent(p: string, sep: char, b: string)
    requires |p| > 0 && p[|p| - 1] != sep
    requires IsFinalComponent(p[..|p| - 1], sep, b)
    ensures IsFinalComponent(p, sep, b + [p[|p| - 1]])
  {
    var init, r := p[..|p| - 1], b + [p[|p| - 1]];
    assert p == init + [p[|p| - 1]];
    assert p[|p| - |r|..] == init[|init| - |b|..] + [p[|p| - 1]];
    assert sep !in r;
  }

  /** A path has exactly one final component. */
  lemma FinalComponentUnique(p: string, sep: char, a: string, b: string)
    requires IsFinalComponent(p, sep, a) && IsFinalComponent(p, sep, b)
    ensures a == b
  {
    assert forall k :: |p| - |a| <= k < |p| ==> p[k] == a[k - (|p| - |a|)] && p[k] != sep;
    assert forall k :: |p| - |b| <= k < |p| ==> p[k] == b[k - (|p| - |b|)] && p[k] != sep;
    assert |a| == |b|;
  }

  /** The last part of a join is the final component of the joined string. */
  lemma {:induction false} JoinEndsWithLast(parts: seq<string>, sep: char)
    requires |parts| >= 1
    requires forall i :: 0 <= i < |parts| ==> sep !in parts[i]
    ensures IsFinalComponent(Join(parts, sep), sep, Last(parts))
    decreases |parts|
  {
    if |parts| > 1 {
      var rest := parts[1..];
      JoinEndsWithLast(rest, sep);
      assert Last(rest) == Last(parts);
      var s := Join(parts, sep);
      assert s == (parts[0] + [sep]) + Join(rest, sep);
      var t := Join(rest, sep);
      if |Last(rest)| == |t| {
        assert s[|s| - |t| - 1] == sep;
      } else {
        assert s[|s| - |Last(rest)| - 1] == t[|t| - |Last(rest)| - 1];
      }
    }
  }

  /** `os.path.basename(p)` and `p.split('/')[-1]` pick the same text for every path. */
  lemma BasenameIsLastSplitPart(p: string)
    ensures Basename(p) == Last(Split(p, '/'))
  {
    JoinEndsWithLast(Split(p, '/'), '/');
    FinalComponentUnique(p, '/', Basename(p), Last(Split(p, '/')));
  }

  /** The final component of `dir + "/" + name` is `name` when `name` has no `/`. */
  lemma BasenameOfJoin(dir: string, name: string)
    requires '/' !in name
    ensures Basename(dir + "/" + name) == name
  {
    var p := dir + "/" + name;
    assert IsFinalComponent(p, '/', name) by {
      assert p[|p| - |name|..] == name;
      assert p[|p| - |name| - 1] == '/';
    }
    FinalComponentUnique(p, '/', Basename(p), name);
  }
}

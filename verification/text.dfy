/** Python `str` operations used by the route handlers, the deploy scripts and the
    storage engine, over `string` (a sequence of code points). */
module Text {

  /** `s.replace(pat, rep)`: every non-overlapping occurrence of `pat`, scanned left
      to right, is replaced by `rep`; an empty `pat` inserts `rep` around every
      character, as Python does. For a one-character `pat` and `rep` this is a
      character-by-character substitution of the same length. */
  function Replace(s: string, pat: string, rep: string): (r: string)
    ensures |pat| == 1 && |rep| == 1 ==> |r| == |s|
    ensures |pat| == 1 && |rep| == 1 ==>
      forall i :: 0 <= i < |s| ==> r[i] == (if s[i] == pat[0] then rep[0] else s[i])
    decreases |s|
  {
    if |pat| == 0 then
      if |s| == 0 then rep else rep + [s[0]] + Replace(s[1..], pat, rep)
    else if |s| < |pat| then s
    else if s[..|pat|] == pat then rep + Replace(s[|pat|..], pat, rep)
    else [s[0]] + Replace(s[1..], pat, rep)
  }

  /** `sep.join(parts)`. */
  function Join(parts: seq<string>, sep: char): string
  {
    if |parts| == 0 then ""
    else if |parts| == 1 then parts[0]
    else parts[0] + [sep] + Join(parts[1..], sep)
  }

  /** `s.split(sep)` for a one-character separator: never empty, no part holds the
      separator, and joining the parts back with `sep` restores `s`. */
  function Split(s: string, sep: char): (parts: seq<string>)
    ensures |parts| >= 1
    ensures forall i :: 0 <= i < |parts| ==> sep !in parts[i]
    ensures Join(parts, sep) == s
    decreases |s|
  {
    if |s| == 0 then [""]
    else
      var rest := Split(s[1..], sep);
      if s[0] == sep then
        assert Join([""] + rest, sep) == "" + [sep] + Join(rest, sep) by {
          assert ([""] + rest)[1..] == rest;
        }
        [""] + rest
      else
        var parts := [[s[0]] + rest[0]] + rest[1..];
        assert parts[1..] == rest[1..];
        parts
  }

  /** The last element of a non-empty sequence, Python's `xs[-1]`. */
  function Last<T>(xs: seq<T>): T
    requires |xs| > 0
  {
    xs[|xs| - 1]
  }

  /** A separator-free string splits into itself alone. */
  lemma {:induction false} SplitNoSeparator(s: string, sep: char)
    requires sep !in s
    ensures Split(s, sep) == [s]
    decreases |s|
  {
    if |s| > 0 {
      SplitNoSeparator(s[1..], sep);
      assert [s[0]] + s[1..] == s;
    }
  }

  /** Splitting at the first separator: the text before it becomes the first part. */
  lemma {:induction false} SplitAtFirst(a: string, sep: char, b: string)
    requires sep !in a
    ensures Split(a + [sep] + b, sep) == [a] + Split(b, sep)
    decreases |a|
  {
    var s := a + [sep] + b;
    if |a| == 0 {
      assert s[0] == sep && s[1..] == b;
    } else {
      assert s[0] == a[0] && s[1..] == a[1..] + [sep] + b;
      SplitAtFirst(a[1..], sep, b);
      assert [a[0]] + a[1..] == a;
    }
  }

  /** The other half of the round trip: separator-free parts joined by `sep` split
      back into the same parts. */
  lemma {:induction false} SplitJoin(parts: seq<string>, sep: char)
    requires |parts| >= 1
    requires forall i :: 0 <= i < |parts| ==> sep !in parts[i]
    ensures Split(Join(parts, sep), sep) == parts
    decreases |parts|
  {
    if |parts| == 1 {
      SplitNoSeparator(parts[0], sep);
    } else {
      SplitJoin(parts[1..], sep);
      SplitAtFirst(parts[0], sep, Join(parts[1..], sep));
      assert [parts[0]] + parts[1..] == parts;
    }
  }

  /** `s.partition(sep)`: the text before the first separator, whether one was found,
      and the text after it. */
  function Partition(s: string, sep: char): (r: (string, bool, string))
    ensures r.1 ==> s == r.0 + [sep] + r.2 && sep !in r.0
    ensures !r.1 ==> sep !in s && r.0 == s && r.2 == ""
    decreases |s|
  {
    if |s| == 0 then ("", false, "")
    else if s[0] == sep then ("", true, s[1..])
    else
      var (before, found, after) := Partition(s[1..], sep);
      ([s[0]] + before, found, after)
  }

  /** Partition stops at the first separator, so a separator-free head is recovered. */
  lemma {:induction false} PartitionAt(a: string, sep: char, b: string)
    requires sep !in a
    ensures Partition(a + [sep] + b, sep) == (a, true, b)
    decreases |a|
  {
    var s := a + [sep] + b;
    if |a| == 0 {
      assert s[0] == sep && s[1..] == b;
    } else {
      assert s[0] == a[0] && s[1..] == a[1..] + [sep] + b;
      PartitionAt(a[1..], sep, b);
      assert [a[0]] + a[1..] == a;
    }
  }

  /** Python's `s[:stop]`: a negative `stop` counts from the end and the bound is
      clamped to the string, so `s[:-4]` of a string shorter than four is empty. */
  function SlicePrefix(s: string, stop: int): (r: string)
    ensures |r| <= |s| && r == s[..|r|]
    ensures stop >= 0 ==> |r| == (if stop < |s| then stop else |s|)
    ensures stop < 0 ==> |r| == (if |s| + stop > 0 then |s| + stop else 0)
  {
    var end := if stop < 0 then |s| + stop else stop;
    if end <= 0 then "" else if end >= |s| then s else s[..end]
  }

  /** Python's three-way string comparison: code point by code point, and a proper
      prefix is smaller. -1, 0 or 1. */
  function Cmp(a: string, b: string): (r: int)
    ensures -1 <= r <= 1
    decreases |a|
  {
    if |a| == 0 && |b| == 0 then 0
    else if |a| == 0 then -1
    else if |b| == 0 then 1
    else if a[0] < b[0] then -1
    else if a[0] > b[0] then 1
    else Cmp(a[1..], b[1..])
  }

  /** The comparison reports a tie exactly for equal strings. */
  lemma {:induction false} CmpZeroIffEqual(a: string, b: string)
    ensures Cmp(a, b) == 0 <==> a == b
    decreases |a|
  {
    if |a| > 0 && |b| > 0 && a[0] == b[0] {
      CmpZeroIffEqual(a[1..], b[1..]);
      assert a == [a[0]] + a[1..] && b == [b[0]] + b[1..];
    }
  }

  /** `a <= b` on Python strings. */
  predicate LexLe(a: string, b: string)
  {
    Cmp(a, b) <= 0
  }

  /** Comparing two concatenations whose heads have equal width: the heads decide,
      and only equal heads pass the decision to the tails. */
  lemma {:induction false} CmpConcat(x: string, u: string, y: string, v: string)
    requires |x| == |y|
    ensures Cmp(x + u, y + v) == if Cmp(x, y) != 0 then Cmp(x, y) else Cmp(u, v)
    decreases |x|
  {
    if |x| > 0 {
      assert (x + u)[0] == x[0] && (y + v)[0] == y[0];
      assert (x + u)[1..] == x[1..] + u && (y + v)[1..] == y[1..] + v;
      CmpConcat(x[1..], u, y[1..], v);
    } else {
      assert x + u == u && y + v == v;
    }
  }
}

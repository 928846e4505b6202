/** The string operations the walker applies to `git cat-file` output:
    Python's `str.rstrip()` with no argument, `str.split(sep)` with a
    one-character separator, and its inverse `sep.join(parts)`. */
module Text {

  /** Python's `str.isspace()` for one character: the characters whose
      bidirectional class is WS, B or S, or whose category is Zs. */
  predicate IsSpace(c: char) {
    ('\t' <= c <= '\r') || ('\U{1C}' <= c <= ' ') || c == '\U{85}' || c == '\U{A0}'
    || c == '\U{1680}' || ('\U{2000}' <= c <= '\U{200A}') || c == '\U{2028}' || c == '\U{2029}'
    || c == '\U{202F}' || c == '\U{205F}' || c == '\U{3000}'
  }

  predicate AllSpace(s: string) {
    forall k :: 0 <= k < |s| ==> IsSpace(s[k])
  }

  /** `s.rstrip()`: `s` without its trailing run of whitespace. */
  function Rstrip(s: string): (r: string)
    ensures r <= s
    ensures r == [] || !IsSpace(r[|r| - 1])
    ensures AllSpace(s[|r|..])
  {
    if |s| > 0 && IsSpace(s[|s| - 1]) then Rstrip(s[..|s| - 1]) else s
  }

  /** The result of `Rstrip` is the only split of `s` into a part that does
      not end in whitespace followed by a run of whitespace. */
  lemma {:induction false} RstripUnique(r: string, w: string)
    requires r == [] || !IsSpace(r[|r| - 1])
    requires AllSpace(w)
    ensures Rstrip(r + w) == r
    decreases |w|
  {
    if w == [] {
      assert r + w == r;
    } else {
      assert (r + w)[..|r + w| - 1] == r + w[..|w| - 1];
      RstripUnique(r, w[..|w| - 1]);
    }
  }

  /** `s.split(sep)`: the pieces of `s` between occurrences of `sep`, in
      order; an empty `s` gives one empty piece. */
  function Split(s: string, sep: char): (parts: seq<string>)
    ensures |parts| >= 1
    ensures forall k :: 0 <= k < |parts| ==> sep !in parts[k]
    decreases |s|
  {
    if s == [] then [""]
    else
      var rest := Split(s[1..], sep);
      if s[0] == sep then [""] + rest
      else [[s[0]] + rest[0]] + rest[1..]
  }

  /** `sep.join(parts)`: it starts with the first piece, followed by the
      separator when there are more. */
  function Join(parts: seq<string>, sep: char): (s: string)
    requires |parts| >= 1
    ensures parts[0] <= s
    ensures |parts| >= 2 ==> |parts[0]| < |s| && s[|parts[0]|] == sep
    decreases |parts|
  {
    if |parts| == 1 then parts[0] else parts[0] + [sep] + Join(parts[1..], sep)
  }

  /** Joining the pieces of a split with the separator gives back the string. */
  lemma {:induction false} JoinSplit(s: string, sep: char)
    ensures Join(Split(s, sep), sep) == s
    decreases |s|
  {
    if s != [] {
      JoinSplit(s[1..], sep);
      var rest := Split(s[1..], sep);
      if s[0] != sep && |rest| > 1 {
        assert Split(s, sep)[1..] == rest[1..];
      }
    }
  }

  /** Splitting a join of separator-free pieces gives back the pieces. */
  lemma {:induction false} SplitJoin(parts: seq<string>, sep: char)
    requires |parts| >= 1
    requires forall k :: 0 <= k < |parts| ==> sep !in parts[k]
    ensures Split(Join(parts, sep), sep) == parts
    decreases |parts|
  {
    if |parts| == 1 {
      SplitWithout(parts[0], sep);
    } else {
      SplitJoin(parts[1..], sep);
      SplitAround(parts[0], Join(parts[1..], sep), sep);
      assert [parts[0]] + parts[1..] == parts;
    }
  }

  /** A string without the separator is a single piece. */
  lemma {:induction false} SplitWithout(s: string, sep: char)
    requires sep !in s
    ensures Split(s, sep) == [s]
    decreases |s|
  {
    if s != [] {
      SplitWithout(s[1..], sep);
      assert [s[0]] + s[1..] == s;
    }
  }

  /** A separator-free prefix followed by the separator becomes the first piece. */
  lemma {:induction false} SplitAround(a: string, b: string, sep: char)
    requires sep !in a
    ensures Split(a + [sep] + b, sep) == [a] + Split(b, sep)
    decreases |a|
  {
    if a == [] {
      assert a + [sep] + b == [sep] + b;
      assert ([sep] + b)[1..] == b;
    } else {
      assert (a + [sep] + b)[1..] == a[1..] + [sep] + b;
      SplitAround(a[1..], b, sep);
      assert [a[0]] + a[1..] == a;
    }
  }

  /** A character absent from `s` is absent from every piece of its split. */
  lemma {:induction false} SplitKeepsAbsent(s: string, sep: char, c: char)
    requires c !in s
    ensures forall k :: 0 <= k < |Split(s, sep)| ==> c !in Split(s, sep)[k]
    decreases |s|
  {
    if s != [] {
      assert c !in s[1..];
      SplitKeepsAbsent(s[1..], sep, c);
    }
  }

  /** A string splits into at least two pieces exactly when it contains the
      separator; the first piece is then the text before the first separator. */
  lemma SplitFirst(s: string, sep: char)
    ensures |Split(s, sep)| >= 2 <==> sep in s
    ensures |Split(s, sep)| >= 2 ==>
      s == Split(s, sep)[0] + [sep] + Join(Split(s, sep)[1..], sep)
  {
    var parts := Split(s, sep);
    JoinSplit(s, sep);
    if |parts| == 1 {
      assert s == parts[0];
    } else {
      assert s == parts[0] + [sep] + Join(parts[1..], sep);
      assert s[|parts[0]|] == sep;
    }
  }

  /** The first two pieces of a split of `s` into two or more: `s` starts
      with the first, the separator and the second, and what follows the
      second, if anything, is again the separator. */
  lemma SplitSecond(s: string, sep: char)
    requires |Split(s, sep)| >= 2
    ensures var p := Split(s, sep);
      p[0] + [sep] + p[1] <= s
      && (|p[0]| + 1 + |p[1]| < |s| ==> s[|p[0]| + 1 + |p[1]|] == sep)
  {
    var p := Split(s, sep);
    SplitFirst(s, sep);
    var tail := p[1..];
    if |tail| == 1 {
      assert s == p[0] + [sep] + p[1];
    } else {
      assert Join(tail, sep) == p[1] + [sep] + Join(tail[1..], sep);
      assert s == p[0] + [sep] + p[1] + [sep] + Join(tail[1..], sep);
    }
  }

  /** The last piece of a split is what follows the last separator: a suffix
      of `s`, preceded by the separator unless it is all of `s`. */
  lemma {:induction false} SplitLast(s: string, sep: char)
    ensures var p := Split(s, sep)[|Split(s, sep)| - 1];
      |p| <= |s| && s[|s| - |p|..] == p
      && (|p| < |s| ==> s[|s| - |p| - 1] == sep)
  {
    JoinSplit(s, sep);
    JoinLast(Split(s, sep), sep);
  }

  /** A join of two or more pieces ends with the separator and the last piece. */
  lemma {:induction false} JoinLast(parts: seq<string>, sep: char)
    requires |parts| >= 1
    ensures var j := Join(parts, sep); var p := parts[|parts| - 1];
      |p| <= |j| && j[|j| - |p|..] == p
      && (|parts| >= 2 ==> |p| < |j| && j[|j| - |p| - 1] == sep)
    decreases |parts|
  {
    if |parts| > 1 {
      JoinLast(parts[1..], sep);
    }
  }
}

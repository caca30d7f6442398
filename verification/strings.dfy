/** Strings as the explorer uses them: a total order standing in for
    `localeCompare`, and the path handling in front of the nested-config
    lookup (backslash normalisation and `split('/')`). */
module Strings {

  /** Strict lexicographic order on character codes. */
  predicate LexLess(a: string, b: string)
    decreases |a|
  {
    if |a| == 0 then |b| > 0
    else if |b| == 0 then false
    else if a[0] < b[0] then true
    else if b[0] < a[0] then false
    else LexLess(a[1..], b[1..])
  }

  /** The three-way comparison used in place of `localeCompare`. */
  function Compare(a: string, b: string): (c: int)
    ensures c == 0 <==> a == b
    ensures c < 0 <==> LexLess(a, b)
    ensures -1 <= c <= 1
  {
    LexLessIrreflexive(a);
    if a == b then 0 else if LexLess(a, b) then -1 else 1
  }

  predicate LexLe(a: string, b: string) {
    Compare(a, b) <= 0
  }

  lemma {:induction false} LexLessIrreflexive(a: string)
    ensures !LexLess(a, a)
    decreases |a|
  {
    if |a| > 0 {
      LexLessIrreflexive(a[1..]);
    }
  }

  /** Two different strings are always ordered one way or the other. */
  lemma {:induction false} LexLessTotal(a: string, b: string)
    requires a != b
    ensures LexLess(a, b) || LexLess(b, a)
    decreases |a|
  {
    if |a| > 0 && |b| > 0 && a[0] == b[0] {
      assert a == [a[0]] + a[1..] && b == [b[0]] + b[1..];
      LexLessTotal(a[1..], b[1..]);
    }
  }

  lemma {:induction false} LexLessAsymmetric(a: string, b: string)
    ensures !(LexLess(a, b) && LexLess(b, a))
    decreases |a|
  {
    if |a| > 0 && |b| > 0 && a[0] == b[0] {
      LexLessAsymmetric(a[1..], b[1..]);
    }
  }

  lemma {:induction false} LexLessTransitive(a: string, b: string, c: string)
    requires LexLess(a, b) && LexLess(b, c)
    ensures LexLess(a, c)
    decreases |a|
  {
    if |a| > 0 && a[0] == b[0] && b[0] == c[0] {
      LexLessTransitive(a[1..], b[1..], c[1..]);
    }
  }

  /** `Compare` is antisymmetric: swapping the arguments negates it. */
  lemma CompareAntisymmetric(a: string, b: string)
    ensures Compare(b, a) == -Compare(a, b)
  {
    if a != b {
      LexLessTotal(a, b);
      LexLessAsymmetric(a, b);
    }
  }

  /** `LexLe` is a total order: total, antisymmetric and transitive. */
  lemma LexLeTotalOrder(a: string, b: string, c: string)
    ensures LexLe(a, b) || LexLe(b, a)
    ensures LexLe(a, b) && LexLe(b, a) ==> a == b
    ensures LexLe(a, b) && LexLe(b, c) ==> LexLe(a, c)
  {
    CompareAntisymmetric(a, b);
    if LexLess(a, b) && LexLess(b, c) {
      LexLessTransitive(a, b, c);
    }
  }

  // ---------------------------------------------------------------------
  // Path segments

  const Slash: char := '/'
  const Backslash: char := '\\'

  /** `replace(/\\/g, '/')`: every backslash becomes a forward slash. */
  function NormalizeSeparators(p: string): (q: string)
    ensures |q| == |p|
    ensures forall i :: 0 <= i < |q| ==> q[i] != Backslash
    ensures forall i :: 0 <= i < |p| ==> q[i] == (if p[i] == Backslash then Slash else p[i])
  {
    if |p| == 0 then []
    else [if p[0] == Backslash then Slash else p[0]] + NormalizeSeparators(p[1..])
  }

  /** Index of the first `sep` in `s`, or `|s|` when there is none. */
  function FirstIndexOf(s: string, sep: char): (i: nat)
    ensures i <= |s|
    ensures i < |s| ==> s[i] == sep
    ensures forall j :: 0 <= j < i ==> s[j] != sep
  {
    if |s| == 0 then 0
    else if s[0] == sep then 0
    else 1 + FirstIndexOf(s[1..], sep)
  }

  /** `s.split(sep)` for a one-character separator. As in JavaScript the
      result is never empty: the empty string splits into `[""]`, and
      adjacent or trailing separators give empty segments. */
  function Split(s: string, sep: char): (parts: seq<string>)
    ensures |parts| >= 1
    ensures forall k :: 0 <= k < |parts| ==> sep !in parts[k]
    decreases |s|
  {
    var i := FirstIndexOf(s, sep);
    if i == |s| then
      [s]
    else
      [s[..i]] + Split(s[i + 1..], sep)
  }

  /** `parts.join(sep)`, the inverse of `Split`. */
  function Join(parts: seq<string>, sep: char): string
  {
    if |parts| == 0 then []
    else if |parts| == 1 then parts[0]
    else parts[0] + [sep] + Join(parts[1..], sep)
  }

  /** Splitting then joining gives back the original string. */
  lemma {:induction false} JoinSplit(s: string, sep: char)
    ensures Join(Split(s, sep), sep) == s
    decreases |s|
  {
    var i := FirstIndexOf(s, sep);
    if i < |s| {
      var tail := s[i + 1..];
      calc {
        Join(Split(s, sep), sep);
        { SplitUnfold(s, sep, i); }
        Join([s[..i]] + Split(tail, sep), sep);
        { JoinCons(s[..i], Split(tail, sep), sep); }
        s[..i] + [sep] + Join(Split(tail, sep), sep);
        { JoinSplit(tail, sep); }
        s[..i] + [sep] + tail;
        { SliceAround(s, i); }
        s;
      }
    }
  }

  /** A string is its prefix, the character at `i` and the rest. */
  lemma SliceAround(s: string, i: nat)
    requires i < |s|
    ensures s[..i] + [s[i]] + s[i + 1..] == s
  {
  }

  /** At the first separator, `Split` peels off one segment. */
  lemma SplitUnfold(s: string, sep: char, i: nat)
    requires i == FirstIndexOf(s, sep) && i < |s|
    ensures Split(s, sep) == [s[..i]] + Split(s[i + 1..], sep)
  {
  }

  /** `Join` of a segment followed by at least one more. */
  lemma JoinCons(head: string, rest: seq<string>, sep: char)
    requires |rest| >= 1
    ensures Join([head] + rest, sep) == head + [sep] + Join(rest, sep)
  {
    var parts := [head] + rest;
    assert parts[0] == head && parts[1..] == rest;
  }

  /** A character absent from `s` is absent from every segment of its
      split. */
  lemma {:induction false} SplitKeepsChars(s: string, sep: char, c: char)
    requires forall i :: 0 <= i < |s| ==> s[i] != c
    ensures forall k :: 0 <= k < |Split(s, sep)| ==> c !in Split(s, sep)[k]
    decreases |s|
  {
    var i := FirstIndexOf(s, sep);
    if i < |s| {
      SplitKeepsChars(s[i + 1..], sep, c);
      SplitUnfold(s, sep, i);
      assert c !in s[..i];
    } else {
      assert Split(s, sep) == [s];
    }
  }

  /** Joining segments that contain no separator, then splitting, gives
      back the same segments. */
  lemma {:induction false} SplitJoin(parts: seq<string>, sep: char)
    requires |parts| >= 1
    requires forall k :: 0 <= k < |parts| ==> sep !in parts[k]
    ensures Split(Join(parts, sep), sep) == parts
    decreases |parts|
  {
    if |parts| == 1 {
      FirstIndexOfAbsent(parts[0], sep);
    } else {
      var rest := Join(parts[1..], sep);
      SplitCons(parts[0], rest, sep);
      SplitJoin(parts[1..], sep);
      assert parts == [parts[0]] + parts[1..];
    }
  }

  /** A separator-free head splits off as the first segment. */
  lemma SplitCons(head: string, rest: string, sep: char)
    requires sep !in head
    ensures Split(head + [sep] + rest, sep) == [head] + Split(rest, sep)
  {
    var s := head + [sep] + rest;
    FirstIndexOfPrefix(head, [sep] + rest, sep);
    assert s == head + ([sep] + rest);
    assert s[..|head|] == head;
    assert s[|head| + 1..] == rest;
  }

  lemma {:induction false} FirstIndexOfAbsent(s: string, sep: char)
    requires sep !in s
    ensures FirstIndexOf(s, sep) == |s|
    decreases |s|
  {
    if |s| > 0 {
      assert s[0] != sep;
      assert forall c :: c in s[1..] ==> c in s;
      FirstIndexOfAbsent(s[1..], sep);
    }
  }

  lemma {:induction false} FirstIndexOfPrefix(a: string, b: string, sep: char)
    requires sep !in a
    requires |b| > 0 && b[0] == sep
    ensures FirstIndexOf(a + b, sep) == |a|
    decreases |a|
  {
    if |a| > 0 {
      assert (a + b)[1..] == a[1..] + b;
      assert forall c :: c in a[1..] ==> c in a;
      FirstIndexOfPrefix(a[1..], b, sep);
    } else {
      assert a + b == b;
    }
  }
}

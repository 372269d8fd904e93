/** The few operations of Kotlin's standard library that the analyser's
    core relies on, on strings as character sequences: `indexOf`,
    `replaceFirst`, `split` on a one-character delimiter, and the inverse
    of `split`, `joinToString`. */
module Strings {
  import opened Wrappers

  /** Number of occurrences of `x` in `s`. */
  function Count<T(==)>(s: seq<T>, x: T): (n: nat)
    ensures n <= |s|
    ensures n == 0 <==> x !in s
  {
    if s == [] then 0 else (if s[0] == x then 1 else 0) + Count(s[1..], x)
  }

  lemma {:induction false} CountAppend<T>(s: seq<T>, t: seq<T>, x: T)
    ensures Count(s + t, x) == Count(s, x) + Count(t, x)
  {
    if s == [] {
      assert s + t == t;
    } else {
      assert (s + t)[1..] == s[1..] + t;
      CountAppend(s[1..], t, x);
    }
  }

  /** Taking one more element of `s` after the prefix `d`. */
  lemma TakeOneMore<T>(d: seq<T>, s: seq<T>, j: nat)
    requires j < |s|
    ensures d + s[..j + 1] == (d + s[..j]) + [s[j]]
  {
    assert s[..j + 1] == s[..j] + [s[j]];
  }

  /** `p` occurs in `s` at position `i`. */
  predicate OccursAt(s: string, p: string, i: nat) {
    i + |p| <= |s| && s[i..i + |p|] == p
  }

  /** The first position at or after `from` where `p` occurs, `None`
      standing for Kotlin's -1. This agrees with Kotlin's `s.indexOf(p, from)`
      whenever `from <= |s|`; Kotlin clamps a larger `from` to `|s|`, which
      matters only for an empty `p`. `replaceFirst` only searches from 0. */
  function IndexOf(s: string, p: string, from: nat): (r: Option<nat>)
    ensures r.Some? ==> from <= r.value && OccursAt(s, p, r.value)
    ensures r.Some? ==> forall j: nat :: from <= j < r.value ==> !OccursAt(s, p, j)
    ensures r.None? ==> forall j: nat :: from <= j ==> !OccursAt(s, p, j)
    decreases |s| - from
  {
    if from + |p| > |s| then None
    else if s[from..from + |p|] == p then Some(from)
    else IndexOf(s, p, from + 1)
  }

  /** Kotlin's `s.replaceFirst(p, q)`: the first occurrence of `p`, if
      any, is replaced by `q`. */
  function ReplaceFirst(s: string, p: string, q: string): string {
    match IndexOf(s, p, 0)
    case None => s
    case Some(i) => s[..i] + q + s[i + |p|..]
  }

  /** Without an occurrence the string comes back unchanged; otherwise only
      the first occurrence is replaced and everything after it is kept,
      later occurrences included. */
  lemma ReplaceFirstSpec(s: string, p: string, q: string)
    ensures (forall j: nat :: !OccursAt(s, p, j)) ==> ReplaceFirst(s, p, q) == s
    ensures forall i: nat :: OccursAt(s, p, i) && (forall j: nat :: j < i ==> !OccursAt(s, p, j)) ==>
              ReplaceFirst(s, p, q) == s[..i] + q + s[i + |p|..]
  {
  }

  /** `parts` joined with the one-character separator `d`
      (Kotlin's `joinToString(d)`). */
  function Join(parts: seq<string>, d: char): string
    requires parts != []
  {
    if |parts| == 1 then parts[0] else parts[0] + [d] + Join(parts[1..], d)
  }

  /** Kotlin's `s.split(d)` for a one-character delimiter: every segment is
      kept, the empty ones at either end included, so that there is always
      one part more than there are delimiters and joining gives `s` back. */
  function Split(s: string, d: char): (parts: seq<string>)
    ensures parts != []
  {
    if s == [] then [""]
    else
      var rest := Split(s[1..], d);
      if s[0] == d then [""] + rest
      else [[s[0]] + rest[0]] + rest[1..]
  }

  /** There is one part more than there are delimiters. */
  lemma {:induction false} SplitCount(s: string, d: char)
    ensures |Split(s, d)| == Count(s, d) + 1
  {
    if s != [] {
      SplitCount(s[1..], d);
    }
  }

  /** No part holds the delimiter. */
  lemma {:induction false} SplitParts(s: string, d: char)
    ensures forall k :: 0 <= k < |Split(s, d)| ==> d !in Split(s, d)[k]
  {
    if s != [] {
      SplitParts(s[1..], d);
    }
  }

  /** Joining the parts gives `s` back. */
  lemma {:induction false} SplitThenJoin(s: string, d: char)
    ensures Join(Split(s, d), d) == s
  {
    if s != [] {
      var rest := Split(s[1..], d);
      SplitThenJoin(s[1..], d);
      assert [s[0]] + s[1..] == s;
      if s[0] != d {
        var parts := Split(s, d);
        assert parts[1..] == rest[1..];
        if |rest| > 1 {
          assert Join(rest, d) == rest[0] + [d] + Join(rest[1..], d);
          assert Join(parts, d) == ([s[0]] + rest[0]) + [d] + Join(rest[1..], d);
        }
      }
    }
  }

  /** Splitting undoes joining, as long as no part holds the delimiter. */
  lemma {:induction false} SplitJoin(parts: seq<string>, d: char)
    requires parts != []
    requires forall k :: 0 <= k < |parts| ==> d !in parts[k]
    ensures Split(Join(parts, d), d) == parts
  {
    if |parts| == 1 {
      SplitNoDelimiter(parts[0], d);
    } else {
      SplitJoin(parts[1..], d);
      SplitPrefix(parts[0], Join(parts[1..], d), d);
      assert [parts[0]] + parts[1..] == parts;
    }
  }

  /** A string without the delimiter splits into itself alone. */
  lemma {:induction false} SplitNoDelimiter(s: string, d: char)
    requires d !in s
    ensures Split(s, d) == [s]
  {
    if s != [] {
      SplitNoDelimiter(s[1..], d);
      assert [s[0]] + s[1..] == s;
    }
  }

  /** A delimiter-free segment in front of a delimiter becomes the first
      part, and the rest splits on its own. */
  lemma {:induction false} SplitPrefix(a: string, b: string, d: char)
    requires d !in a
    ensures Split(a + [d] + b, d) == [a] + Split(b, d)
  {
    if a == [] {
      assert a + [d] + b == [d] + b;
      assert ([d] + b)[1..] == b;
    } else {
      assert (a + [d] + b)[1..] == a[1..] + [d] + b;
      SplitPrefix(a[1..], b, d);
      assert [a[0]] + a[1..] == a;
    }
  }
}

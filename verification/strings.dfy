/**
 The two string operations the delete handler leans on: JavaScript's
 `String.prototype.split` with a one-character separator, and
 `String.prototype.includes`. Each comes with an independent description it is
 proved against.
 */
module Strings {

  /** `s.split(sep)` for a one-character separator: the maximal runs of
      non-separator characters, one more of them than there are separators, so
      the result is never empty ("".split("/") is [""]). */
  function Split(s: string, sep: char): (parts: seq<string>)
    ensures |parts| >= 1
    ensures forall i :: 0 <= i < |parts| ==> sep !in parts[i]
  {
    if s == [] then [[]]
    else
      var rest := Split(s[1..], sep);
      if s[0] == sep then [[]] + rest
      else [[s[0]] + rest[0]] + rest[1..]
  }

  /** `parts.join(sep)`: the inverse of `Split`. */
  function Join(parts: seq<string>, sep: char): string
    requires |parts| >= 1
  {
    if |parts| == 1 then parts[0] else parts[0] + [sep] + Join(parts[1..], sep)
  }

  /** `xs.pop()` on a non-empty array, read for its value: the element whose
      removal leaves the rest of the array. */
  function Last<T>(xs: seq<T>): (r: T)
    requires |xs| >= 1
    ensures xs == xs[..|xs| - 1] + [r]
  {
    xs[|xs| - 1]
  }

  /** Splitting and joining again gives back the string. */
  lemma {:induction false} JoinSplit(s: string, sep: char)
    ensures Join(Split(s, sep), sep) == s
  {
    if s != [] {
      var rest := Split(s[1..], sep);
      JoinSplit(s[1..], sep);
      if s[0] != sep {
        var parts := [[s[0]] + rest[0]] + rest[1..];
        assert parts[1..] == rest[1..];
      }
    }
  }

  /** Splitting a separator-free head followed by more text: the head sticks
      to the front of the first part. */
  lemma {:induction false} SplitHead(a: string, t: string, sep: char)
    requires sep !in a
    ensures Split(a + t, sep) == [a + Split(t, sep)[0]] + Split(t, sep)[1..]
  {
    var st := Split(t, sep);
    if a == [] {
      assert a + t == t;
      assert a + st[0] == st[0];
      assert st == [st[0]] + st[1..];
    } else {
      assert (a + t)[1..] == a[1..] + t;
      SplitHead(a[1..], t, sep);
      var rest := Split(a[1..] + t, sep);
      assert rest[0] == a[1..] + st[0];
      assert rest[1..] == st[1..];
      assert [a[0]] + (a[1..] + st[0]) == a + st[0];
    }
  }

  /** Joining separator-free parts and splitting again gives back the parts. */
  lemma {:induction false} SplitJoin(parts: seq<string>, sep: char)
    requires |parts| >= 1
    requires forall i :: 0 <= i < |parts| ==> sep !in parts[i]
    ensures Split(Join(parts, sep), sep) == parts
  {
    if |parts| > 1 {
      var tail := Join(parts[1..], sep);
      SplitJoin(parts[1..], sep);
      assert ([sep] + tail)[1..] == tail;
      assert Split([sep] + tail, sep) == [[]] + parts[1..];
      SplitHead(parts[0], [sep] + tail, sep);
      assert parts[0] + [sep] + tail == parts[0] + ([sep] + tail);
      assert parts[0] + [] == parts[0];
      assert parts == [parts[0]] + parts[1..];
    } else {
      SplitHead(parts[0], [], sep);
      assert parts[0] + [] == parts[0];
      assert [parts[0]] == parts;
    }
  }

  /** The first part is a prefix of the string and the last part a suffix. */
  lemma {:induction false} SplitEnds(s: string, sep: char)
    ensures var parts := Split(s, sep);
      && |parts[0]| <= |s| && s[..|parts[0]|] == parts[0]
      && |Last(parts)| <= |s| && s[|s| - |Last(parts)|..] == Last(parts)
  {
    if s != [] {
      SplitEnds(s[1..], sep);
      var rest := Split(s[1..], sep);
      var p := Last(rest);
      if s[0] == sep {
        assert Split(s, sep) == [[]] + rest;
        assert Last([[]] + rest) == p;
        assert s[|s| - |p|..] == s[1..][|s| - 1 - |p|..];
      } else {
        var parts := [[s[0]] + rest[0]] + rest[1..];
        assert Split(s, sep) == parts;
        assert s[..1 + |rest[0]|] == [s[0]] + s[1..][..|rest[0]|];
        if |rest| == 1 {
          JoinSplit(s[1..], sep);
          assert Last(parts) == [s[0]] + s[1..] == s;
        } else {
          assert Last(parts) == p;
          assert s[|s| - |p|..] == s[1..][|s| - 1 - |p|..];
        }
      }
    }
  }

  /** A string without the separator splits into one part. */
  lemma {:induction false} SplitNoSeparator(s: string, sep: char)
    requires sep !in s
    ensures |Split(s, sep)| == 1
  {
    if s != [] {
      SplitNoSeparator(s[1..], sep);
    }
  }

  /** The first part stops at the first separator: it is the whole string, or
      the character right after it is the separator. */
  lemma {:induction false} FirstPartStops(s: string, sep: char)
    ensures var p := Split(s, sep)[0];
      |p| == |s| || (|p| < |s| && s[|p|] == sep)
  {
    if s != [] && s[0] != sep {
      FirstPartStops(s[1..], sep);
    }
  }

  /** The last part starts just after the last separator: it is the whole
      string, or the character right before it is the separator. */
  lemma {:induction false} LastPartStarts(s: string, sep: char)
    ensures var p := Last(Split(s, sep));
      |p| == |s| || (|p| < |s| && s[|s| - |p| - 1] == sep)
  {
    if s != [] {
      LastPartStarts(s[1..], sep);
      var rest := Split(s[1..], sep);
      if s[0] != sep && |rest| == 1 {
        JoinSplit(s[1..], sep);
        assert Last(Split(s, sep)) == [s[0]] + s[1..] == s;
      } else {
        var p := Last(rest);
        assert Last(Split(s, sep)) == p;
        SplitEnds(s[1..], sep);
        if s[0] != sep && |p| == |s| - 1 {
          assert p == s[1..];
          SplitNoSeparator(s[1..], sep);
        }
      }
    }
  }

  /** `pat` occurs in `s` at offset `i`. */
  predicate OccursAt(s: string, pat: string, i: nat) {
    i + |pat| <= |s| && s[i..i + |pat|] == pat
  }

  /** `s.includes(pat)`, scanning left to right: true exactly when the
      pattern occurs at some offset. */
  function Includes(s: string, pat: string): (b: bool)
    ensures b <==> exists i: nat :: OccursAt(s, pat, i)
    decreases |s|
  {
    if |pat| <= |s| && s[..|pat|] == pat then
      assert OccursAt(s, pat, 0);
      true
    else if s == [] then false
    else
      var found := Includes(s[1..], pat);
      OccursShift(s, pat);
      found
  }

  /** An occurrence in `s` other than at offset 0 is an occurrence in `s[1..]`
      one place earlier, and the other way round. */
  lemma OccursShift(s: string, pat: string)
    requires s != []
    ensures (exists i: nat :: OccursAt(s[1..], pat, i)) ==> exists i: nat :: OccursAt(s, pat, i)
    ensures (exists i: nat :: OccursAt(s, pat, i)) && !OccursAt(s, pat, 0) ==>
      exists i: nat :: OccursAt(s[1..], pat, i)
  {
    if i: nat :| OccursAt(s[1..], pat, i) {
      assert s[i + 1..i + 1 + |pat|] == s[1..][i..i + |pat|];
      assert OccursAt(s, pat, i + 1);
    }
    if i: nat :| OccursAt(s, pat, i) && i != 0 {
      assert s[1..][i - 1..i - 1 + |pat|] == s[i..i + |pat|];
      assert OccursAt(s[1..], pat, i - 1);
    }
  }
}

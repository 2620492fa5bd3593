/**
 * JavaScript's `String.prototype.split` with a one-character separator, and
 * its inverse. Seat ids are split on '-' by the event store and QR payloads
 * on '/' by the scanner.
 */
module Strings {

  /** Glues the parts back together with `sep` between neighbours. */
  function Join(parts: seq<string>, sep: char): string
    requires |parts| >= 1
  {
    if |parts| == 1 then parts[0] else parts[0] + [sep] + Join(parts[1..], sep)
  }

  /** The last element of a non-empty sequence (`parts[parts.length - 1]`). */
  function Last<T>(s: seq<T>): T
    requires |s| >= 1
  {
    s[|s| - 1]
  }

  /** `s.split(sep)`: never empty, since the empty string splits into one empty part. */
  function Split(s: string, sep: char): (parts: seq<string>)
    ensures |parts| >= 1
  {
    if s == [] then [[]]
    else
      var rest := Split(s[1..], sep);
      if s[0] == sep then [[]] + rest
      else [[s[0]] + rest[0]] + rest[1..]
  }

  /** No part of a split contains the separator. */
  lemma {:induction false} SplitPartsFree(s: string, sep: char)
    ensures forall i :: 0 <= i < |Split(s, sep)| ==> sep !in Split(s, sep)[i]
  {
    if s != [] {
      SplitPartsFree(s[1..], sep);
      var rest := Split(s[1..], sep);
      if s[0] != sep {
        assert sep !in rest[0];
        assert sep !in [s[0]] + rest[0];
      }
    }
  }

  /** Joining the parts of a split gives back the string. */
  lemma {:induction false} SplitJoin(s: string, sep: char)
    ensures Join(Split(s, sep), sep) == s
  {
    if s != [] {
      SplitJoin(s[1..], sep);
      var rest := Split(s[1..], sep);
      assert s == [s[0]] + s[1..];
      if s[0] == sep {
        assert ([[]] + rest)[1..] == rest;
      } else {
        var parts := [[s[0]] + rest[0]] + rest[1..];
        if |rest| > 1 {
          assert parts[1..] == rest[1..];
          assert Join(rest, sep) == rest[0] + [sep] + Join(rest[1..], sep);
        }
      }
    }
  }

  /** `l` is a suffix of `s` that is either all of `s` or preceded by `sep`. */
  predicate SuffixAfter(s: string, l: string, sep: char)
  {
    |l| <= |s| && s[|s| - |l|..] == l && (|l| < |s| ==> s[|s| - |l| - 1] == sep)
  }

  /** A suffix after a separator in `s[1..]` is one in `s` too, and strictly shorter than `s`. */
  lemma SuffixAfterShift(s: string, l: string, sep: char)
    requires s != [] && SuffixAfter(s[1..], l, sep)
    requires |l| == |s| - 1 ==> s[0] == sep
    ensures SuffixAfter(s, l, sep) && |l| < |s|
  {
    var t := s[1..];
    assert t[|t| - |l|..] == s[|s| - |l|..];
    if |l| < |t| {
      assert s[|s| - |l| - 1] == t[|t| - |l| - 1];
    }
  }

  /** When `s` starts with the separator or its tail splits in several parts, the last part is the tail's. */
  lemma SplitStepLast(s: string, sep: char)
    requires s != [] && (s[0] == sep || |Split(s[1..], sep)| > 1)
    ensures |Split(s, sep)| > 1 && Last(Split(s, sep)) == Last(Split(s[1..], sep))
  {
    var rest := Split(s[1..], sep);
    if s[0] == sep {
      assert Split(s, sep) == [[]] + rest;
    } else {
      assert Split(s, sep) == [[s[0]] + rest[0]] + rest[1..];
    }
  }

  /** When `s` starts with another character and its tail splits in one part, `s` splits in one part. */
  lemma SplitStepSingle(s: string, sep: char)
    requires s != [] && s[0] != sep && |Split(s[1..], sep)| == 1
    ensures Split(s, sep) == [s]
  {
    var t := s[1..];
    SplitJoin(t, sep);
    assert Split(t, sep) == [t];
    assert s == [s[0]] + t;
  }

  /**
   * The last part is the text after the last separator: a suffix of `s`
   * that is either all of `s` or preceded by a separator.
   */
  lemma {:induction false} SplitLastIsSuffix(s: string, sep: char)
    ensures SuffixAfter(s, Last(Split(s, sep)), sep)
    ensures |Split(s, sep)| > 1 ==> |Last(Split(s, sep))| < |s|
  {
    if s != [] {
      var t := s[1..];
      SplitLastIsSuffix(t, sep);
      if s[0] == sep || |Split(t, sep)| > 1 {
        SplitStepLast(s, sep);
        SuffixAfterShift(s, Last(Split(t, sep)), sep);
      } else {
        SplitStepSingle(s, sep);
        assert s[0..] == s;
      }
    }
  }

  /** A string without the separator splits into itself alone. */
  lemma {:induction false} SplitWithoutSeparator(s: string, sep: char)
    requires sep !in s
    ensures Split(s, sep) == [s]
  {
    if s != [] {
      SplitWithoutSeparator(s[1..], sep);
      assert s == [s[0]] + s[1..];
    }
  }

  /** Appending `sep + t` (with `t` free of `sep`) appends exactly one part, `t`. */
  lemma {:induction false} SplitAppend(s: string, t: string, sep: char)
    requires sep !in t
    ensures Split(s + [sep] + t, sep) == Split(s, sep) + [t]
  {
    if s == [] {
      SplitWithoutSeparator(t, sep);
      assert s + [sep] + t == [sep] + t;
      assert ([sep] + t)[1..] == t;
    } else {
      SplitAppend(s[1..], t, sep);
      assert (s + [sep] + t)[1..] == s[1..] + [sep] + t;
    }
  }

  /** Prepending `a + sep` (with `a` free of `sep`) prepends exactly one part, `a`. */
  lemma {:induction false} SplitPrepend(a: string, rest: string, sep: char)
    requires sep !in a
    ensures Split(a + [sep] + rest, sep) == [a] + Split(rest, sep)
  {
    if a == [] {
      assert a + [sep] + rest == [sep] + rest;
      assert ([sep] + rest)[1..] == rest;
    } else {
      SplitPrepend(a[1..], rest, sep);
      assert (a + [sep] + rest)[1..] == a[1..] + [sep] + rest;
      assert a == [a[0]] + a[1..];
    }
  }

  /** Splitting the join of separator-free parts gives the parts back. */
  lemma {:induction false} JoinSplit(parts: seq<string>, sep: char)
    requires |parts| >= 1
    requires forall i :: 0 <= i < |parts| ==> sep !in parts[i]
    ensures Split(Join(parts, sep), sep) == parts
  {
    if |parts| == 1 {
      SplitWithoutSeparator(parts[0], sep);
    } else {
      JoinSplit(parts[1..], sep);
      SplitPrepend(parts[0], Join(parts[1..], sep), sep);
      assert [parts[0]] + parts[1..] == parts;
    }
  }
}
